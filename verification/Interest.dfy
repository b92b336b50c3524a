/** The interest of one window against flat accrual. Writing x = e * dt for the exponent and
    I for the integral before the division by a year, every bound is stated multiplied by e. */
module Interest {
  import opened Words
  import opened Nonlinear
  import opened Kernels
  import opened Logarithm
  import opened RateModel
  import opened RateBounds

  // ---------------------------------------------------------------- unsaturated growth

  /** curr = floor(last * NAD / gd) with gd at most NAD^2 / (NAD + x - 9). */
  lemma GrowthAtLeast(last: nat, x: nat, gd: nat, curr: nat)
    requires 1 <= gd && gd * (NAD + 10 * (x / 10)) <= NAD * NAD
    requires last * NAD < (curr + 1) * gd
    ensures last * x <= (curr - last) * NAD + 9 * last + NAD
  {
    var m := NAD + 10 * (x / 10);
    calc {
      (last * m) * NAD;
    ==
      (last * NAD) * m;
    <=  { MulMono(last * NAD, (curr + 1) * gd, m, m); }
      ((curr + 1) * gd) * m;
    ==  { Associate(curr + 1, gd, m); }
      (curr + 1) * (gd * m);
    <=  { MulMono(curr + 1, curr + 1, gd * m, NAD * NAD); }
      (curr + 1) * (NAD * NAD);
    }
    assert last * m <= (curr + 1) * NAD;
    MulMono(last, last, NAD + x - 9, m);
    Distribute(NAD, x, last);
    DistributeMinus(NAD + x, 9, last);
  }

  /** gd at least NAD - x bounds how far one rate can be from the other. */
  lemma MoveAtMost(high: nat, low: nat, x: nat, gd: nat)
    requires NAD - x <= gd && high * gd <= low * NAD
    ensures (high - low) * NAD <= high * x
  {
    if x <= NAD {
      MulMono(high, high, NAD - x, gd);
      DistributeMinus(NAD, x, high);
    } else {
      MulMono(high, high, NAD, x);
    }
    DistributeMinus(high, low, NAD);
  }

  /** I = floor(n / e) from two-sided bounds on n. */
  lemma QuotientBetween(n: nat, e: nat, i: int)
    requires e > 0 && i == n / e
    ensures i * e <= n < i * e + e
  {
    FloorSpec(n, e);
    Distribute(i, 1, e);
  }

  // ---------------------------------------------------------------- unsaturated decay

  /** curr = floor(last * gd / NAD) with the upper bound on gd. */
  lemma DecayAtLeast(last: nat, x: nat, gd: nat, curr: nat)
    requires gd * (NAD + 10 * (x / 10)) <= NAD * NAD
    requires curr * NAD <= last * gd
    ensures curr * x <= (last - curr) * NAD + 9 * curr
  {
    var m := NAD + 10 * (x / 10);
    calc {
      (curr * m) * NAD;
    ==
      (curr * NAD) * m;
    <=  { MulMono(curr * NAD, last * gd, m, m); }
      (last * gd) * m;
    ==  { Associate(last, gd, m); }
      last * (gd * m);
    <=  { MulMono(last, last, gd * m, NAD * NAD); }
      last * (NAD * NAD);
    }
    assert curr * m <= last * NAD;
    MulMono(curr, curr, NAD + x - 9, m);
    Distribute(NAD, x, curr);
    DistributeMinus(NAD + x, 9, curr);
  }

  /** curr = floor(last * gd / NAD) with the lower bound on gd. */
  lemma DecayAtMost(last: nat, x: nat, gd: nat, curr: int)
    requires NAD - x <= gd && last * gd < (curr + 1) * NAD
    ensures (last - curr) * NAD <= last * x + NAD
  {
    if x <= NAD {
      MulMono(last, last, NAD - x, gd);
      DistributeMinus(NAD, x, last);
    } else {
      MulMono(last, last, NAD, x);
      MulMono(0, last, 0, gd);
    }
    DistributeMinus(last, curr, NAD);
  }

  // ---------------------------------------------------------------- split windows

  /** The time ln(high / low) / e, before clamping to the window. */
  lemma TravelTimeParts(high: u64, low: u64, e: u64)
    requires 0 < low < high && e > 0
    ensures var ratio := Min(high * NAD / low, U64_MAX);
      && NAD <= ratio && LnNad(ratio) >= 0
      && TravelTime(high, low, e) == Ok(LnNad(ratio) / e)
  {
    FloorAtLeast(NAD, high * NAD, low);
    LnNonNegative(Min(high * NAD / low, U64_MAX));
    FloorAtLeast(0, LnNad(Min(high * NAD / low, U64_MAX)), e);
  }

  /** The exponential part pays at least the low rate over the travel time. */
  lemma TravelAtLeast(high: u64, low: u64, e: u64, time: nat)
    requires low < high && e > 0
    requires low > 0 ==> TravelTime(high, low, e) == Ok(time)
    ensures low * time <= Ceil((high - low) * NAD, e)
  {
    if low > 0 {
      TravelTimeParts(high, low, e);
      var ratio := Min(high * NAD / low, U64_MAX);
      var ln := LnNad(ratio);
      LnBelowLinear(ratio);
      FloorSpec(ln, e);
      FloorSpec(high * NAD, low);
      MulMono(ratio, high * NAD / low, low, low);
      TravelProduct(low, time, e, ln, ratio - NAD);
      DistributeMinus(ratio, NAD, low);
      DistributeMinus(high, low, NAD);
      CeilSpec((high - low) * NAD, e);
      CancelLe(low * time, Ceil((high - low) * NAD, e), e);
    } else {
      CeilSpec((high - low) * NAD, e);
      CeilAtMost(-1, (high - low) * NAD, e);
    }
  }

  lemma TravelProduct(low: nat, time: nat, e: nat, ln: nat, bound: nat)
    requires time * e <= ln <= bound
    ensures (low * time) * e <= low * bound
  {
    MulMono(low, low, time * e, bound);
    Associate(low, time, e);
  }

  /** The exponential part pays at most the high rate over the travel time, plus one
      millisecond and the truncation of the logarithm; also when the ratio is cut to 64 bits. */
  lemma TravelAtMost(high: u64, low: u64, e: u64, time: nat)
    requires 0 < low < high && e > 0
    requires TravelTime(high, low, e) == Ok(time)
    ensures Ceil((high - low) * NAD, e) * e <= (high * time) * e + high * (e + 2) + e
  {
    TravelTimeParts(high, low, e);
    var ratio := Min(high * NAD / low, U64_MAX);
    var ln := LnNad(ratio);
    LnAboveConcave(ratio);
    FloorSpec(ln, e);
    if ratio == U64_MAX {
      CutRatioSlack(high, low, ln);
    } else {
      FloorSpec(high * NAD, low);
      RatioSlack(high, low, ratio, ln);
    }
    CeilSpec((high - low) * NAD, e);
    var c := Ceil((high - low) * NAD, e);
    DistributeMinus(c, 1, e);
    assert ln + 3 <= time * e + e + 2 by { Distribute(time, 1, e); }
    MulMono(high, high, ln + 3, time * e + e + 2);
    Distribute(time * e, e + 2, high);
    Associate(high, time, e);
  }

  /** The largest ratio has a logarithm of at least one, and no rate falls by more than itself. */
  lemma CutRatioSlack(high: nat, low: nat, ln: nat)
    requires low < high && (U64_MAX - NAD) * NAD <= (ln + 2) * U64_MAX
    ensures (high - low) * NAD <= high * (ln + 3)
  {
    MulMono(high - low, high, NAD, ln + 3);
  }

  /** (high - low) * NAD <= high * (ln + 3), from 1 - 1 / ratio <= ln + 2. */
  lemma RatioSlack(high: nat, low: nat, ratio: nat, ln: nat)
    requires 0 < low < high && NAD <= ratio
    requires ratio * low <= high * NAD < (ratio + 1) * low
    requires (ratio - NAD) * NAD <= (ln + 2) * ratio
    ensures (high - low) * NAD <= high * (ln + 3)
  {
    var hr, lr := high * ratio, low * ratio;
    assert high * NAD < lr + low by { Distribute(ratio, 1, low); }
    assert low * NAD <= hr by { MulMono(low, high, NAD, ratio); }
    assert hr * NAD - high * NAD * NAD <= (ln + 2) * hr by {
      MulMono((ratio - NAD) * NAD, (ln + 2) * ratio, high, high);
      DistributeMinus(ratio, NAD, high);
      Associate(ln + 2, ratio, high);
    }
    SlackTimesRatio(high, low, ratio, ln);
    SlackSum(high, low, hr, lr, (ln + 2) * hr);
    CancelLe((high - low) * NAD, high * (ln + 3), ratio);
  }

  lemma SlackTimesRatio(high: nat, low: nat, ratio: nat, ln: nat)
    ensures ((high - low) * NAD) * ratio == (high * ratio) * NAD - (low * ratio) * NAD
    ensures (high * (ln + 3)) * ratio == (ln + 2) * (high * ratio) + high * ratio
  {
    DistributeMinus(high, low, ratio);
    Distribute(ln + 2, 1, high * ratio);
    Associate(ln + 3, high, ratio);
  }

  lemma SlackSum(high: nat, low: nat, hr: nat, lr: nat, p: nat)
    requires high * NAD < lr + low && low * NAD <= hr
    requires hr * NAD - high * NAD * NAD <= p
    ensures hr * NAD - lr * NAD <= p + hr
  {
  }

  // ---------------------------------------------------------------- the regimes

  /** Interest i against flat accrual at a rate over a window of exponent x = e * dt. */
  predicate PaysAtLeast(rate: nat, x: nat, i: nat, e: nat) {
    rate * x <= i * e + 9 * rate + NAD + e
  }

  predicate PaysAtMost(rate: nat, x: nat, i: nat, e: nat) {
    i * e <= rate * x + rate * (e + 2) + NAD + e
  }

  lemma FlatPays(rate: nat, dt: nat, i: nat, e: nat)
    ensures rate * dt <= i ==> PaysAtLeast(rate, e * dt, i, e)
    ensures i <= rate * dt ==> PaysAtMost(rate, e * dt, i, e)
  {
    Associate(rate, dt, e);
    MulMono(0, rate, 0, e + 2);
    if rate * dt <= i {
      MulMono(rate * dt, i, e, e);
    }
    if i <= rate * dt {
      MulMono(i, rate * dt, e, e);
    }
  }

  /** The window reaches the cap (rising) or the floor (falling) before it ends. */
  predicate HitsCap(m: Model, last: u64, gd: u64) {
    m.maxRate > 0 && last * NAD / Max(gd, 1) > m.maxRate
  }

  predicate HitsFloor(m: Model, last: u64, gd: u64) {
    last * gd / NAD < m.minRate
  }

  predicate Saturates(m: Model, last: u64, util: u64, gd: u64) {
    || (util > m.targetEnd && HitsCap(m, last, gd))
    || (util <= m.targetEnd && util < m.targetStart && HitsFloor(m, last, gd))
  }

  /** With a decay factor that rounds to zero growth stops at NAD times the start rate. Past an
      exponent of about NAD^2 that no longer pays the start rate throughout. */
  predicate Outlasts(last: nat, x: nat, e: nat)
    requires e > 0
  {
    last * (x - NAD * (NAD - 1) - 9) > NAD + e - (last * (NAD * (NAD - 1))) % e
  }

  lemma StoppedGrowthPaysIff(last: nat, x: nat, e: nat)
    requires e > 0
    ensures PaysAtLeast(last, x, last * (NAD * (NAD - 1)) / e, e) <==> !Outlasts(last, x, e)
  {
    var g := NAD * (NAD - 1);
    FloorSpec(last * g, e);
    DistributeMinus(x, g + 9, last);
    Distribute(g, 9, last);
    assert last * g == (last * g / e) * e + (last * g) % e;
  }

  /** No exponent up to NAD * (NAD - 1) + 9 is that long. */
  lemma ShortNeverOutlasts(last: nat, x: nat, e: nat)
    requires e > 0 && x <= NAD * (NAD - 1) + 9
    ensures !Outlasts(last, x, e)
  {
    MulMono(0, last, 0, NAD * (NAD - 1) + 9 - x);
    DistributeMinus(0, NAD * (NAD - 1) + 9 - x, last);
    assert last * (x - NAD * (NAD - 1) - 9) == -(last * (NAD * (NAD - 1) + 9 - x));
  }

  /** An unsaturated rise: interest is at most the end rate throughout and, up to rounding, at
      least the start rate, unless the decay factor is zero and the window outlasts the growth. */
  lemma RisingSandwich(m: Model, last: u64, dt: u64, gd: u64)
    requires m.expRate > 0 && NAD - m.expRate * dt <= gd <= NAD && !HitsCap(m, last, gd)
    requires gd * (NAD + 10 * (m.expRate * dt / 10)) <= NAD * NAD
    ensures Rising(m, last, dt, gd).Ok?
    ensures var (r, i) := Rising(m, last, dt, gd).value;
      && last <= r
      && (r - last) * NAD <= r * (m.expRate * dt)
      && (gd >= 1 ==> last * (m.expRate * dt) <= (r - last) * NAD + 9 * last + NAD)
      && (gd == 0 ==> r == last * NAD)
      && i <= r * dt
      && (PaysAtLeast(last, m.expRate * dt, i, m.expRate) <==> gd >= 1 || !Outlasts(last, m.expRate * dt, m.expRate))
  {
    var e, g := m.expRate, Max(gd, 1);
    var r := last * NAD / g;
    FloorSpec(last * NAD, g);
    FloorAntitone(last * NAD, g, NAD);
    MulMono(0, e, 0, dt);
    MoveAtMost(r, last, e * dt, g);
    var n := (r - last) * NAD;
    QuotientBetween(n, e, n / e);
    Associate(r, dt, e);
    CancelLe(n / e, r * dt, e);
    if gd >= 1 {
      GrowthAtLeast(last, e * dt, gd, r);
    } else {
      StoppedGrowthPaysIff(last, e * dt, e);
      assert n == last * (NAD * (NAD - 1)) by { Associate(last, NAD - 1, NAD); }
    }
  }

  /** An unsaturated fall: interest is at least the end rate, up to rounding, and at most the
      start rate plus one unit of growth constant. */
  lemma FallingSandwich(m: Model, last: u64, dt: u64, gd: u64)
    requires m.expRate > 0 && NAD - m.expRate * dt <= gd <= NAD && !HitsFloor(m, last, gd)
    requires gd * (NAD + 10 * (m.expRate * dt / 10)) <= NAD * NAD
    ensures Falling(m, last, dt, gd).Ok?
    ensures var (r, i) := Falling(m, last, dt, gd).value;
      && r <= last
      && (last - r) * NAD <= last * (m.expRate * dt) + NAD
      && r * (m.expRate * dt) <= (last - r) * NAD + 9 * r
      && r * (m.expRate * dt) <= i * m.expRate + 9 * r + m.expRate
      && PaysAtLeast(r, m.expRate * dt, i, m.expRate)
      && i * m.expRate <= last * (m.expRate * dt) + NAD
  {
    var e, r := m.expRate, last * gd / NAD;
    MulMono(last, last, gd, NAD);
    MulMono(0, last, 0, gd);
    FloorSpec(last * gd, NAD);
    FloorMono(last * gd, last * NAD, NAD);
    MulMono(0, e, 0, dt);
    DecayAtLeast(last, e * dt, gd, r);
    DecayAtMost(last, e * dt, gd, r);
    QuotientBetween((last - r) * NAD, e, (last - r) * NAD / e);
  }

  /** A split window pays at least the lower rate throughout, and at most the higher rate
      plus the cost of one millisecond and of the logarithm's truncation. */
  lemma SplitSandwich(m: Model, last: u64, bound: u64, dt: u64, up: bool)
    requires m.expRate > 0 && dt < -I64_MIN && Split(m, last, bound, dt, up).Ok?
    requires if up then last < bound else bound < last
    requires Min(last, bound) > 0
    requires (Max(last, bound) - Min(last, bound)) * NAD <= Max(last, bound) * (m.expRate * dt)
    ensures var (r, i) := Split(m, last, bound, dt, up).value;
      var low, high := Min(last, bound), Max(last, bound);
      && r == bound
      && low * dt <= i
      && PaysAtMost(high, m.expRate * dt, i, m.expRate)
  {
    var e, low, high := m.expRate, Min(last, bound), Max(last, bound);
    var time := TimeToReach(last, bound, e, up).value;
    var c := Ceil((high - low) * NAD, e);
    SplitValue(m, last, bound, dt, up);
    TravelAtLeast(high, low, e, time);
    SplitLower(low, bound, time, Min(time, dt), dt, c);
    TravelAtMost(high, low, e, time);
    CeilSpec((high - low) * NAD, e);
    DistributeMinus(c, 1, e);
    SplitUpper(high, bound, time, dt, e, c);
  }

  lemma SplitValue(m: Model, last: u64, bound: u64, dt: u64, up: bool)
    requires m.expRate > 0 && Split(m, last, bound, dt, up).Ok?
    requires if up then last < bound else bound < last
    ensures TimeToReach(last, bound, m.expRate, up).Ok?
    ensures var time := TimeToReach(last, bound, m.expRate, up).value;
      var distance := Max(last, bound) - Min(last, bound);
      Split(m, last, bound, dt, up).value == (bound, Ceil(distance * NAD, m.expRate) + bound * (dt - Min(time, dt)))
  {
    CeilDivIsCeil((Max(last, bound) - Min(last, bound)) * NAD, m.expRate);
  }

  lemma SplitLower(low: nat, bound: nat, time: nat, t: nat, dt: nat, c: nat)
    requires low <= bound && t == Min(time, dt) && low * time <= c
    ensures low * dt <= c + bound * (dt - t)
  {
    MulMono(low, low, t, time);
    MulMono(low, bound, dt - t, dt - t);
    Distribute(t, dt - t, low);
  }

  lemma SplitUpper(high: nat, bound: nat, time: nat, dt: nat, e: nat, c: nat)
    requires bound <= high && e > 0
    requires c * e <= (high * time) * e + high * (e + 2) + e
    requires c * e - e <= high * (e * dt)
    ensures (c + bound * (dt - Min(time, dt))) * e <= high * (e * dt) + high * (e + 2) + e
  {
    MulMono(0, high, 0, e + 2);
    if time < dt {
      MulMono(bound, high, dt - time, dt - time);
      Distribute(time, dt - time, high);
      MulMono(c + bound * (dt - time), c + high * (dt - time), e, e);
      Distribute(c, high * (dt - time), e);
      Distribute(high * time, high * (dt - time), e);
      Associate(high, dt, e);
    }
  }

  // ---------------------------------------------------------------- the window

  lemma CappedSandwich(m: Model, last: u64, dt: u64, gd: u64)
    requires m.expRate > 0 && dt < -I64_MIN && NAD - m.expRate * dt <= gd && HitsCap(m, last, gd)
    ensures Rising(m, last, dt, gd).Ok?
    ensures var (r, i) := Rising(m, last, dt, gd).value;
      var low, high := Min(last, r), Max(last, r);
      && r == m.maxRate
      && low * dt <= i
      && PaysAtMost(high, m.expRate * dt, i, m.expRate)
  {
    if last >= m.maxRate {
      FlatWindow(m.maxRate, last, dt, m.expRate);
    } else {
      CapDistance(m, last, dt, gd);
      CapRegime(m, last, dt, gd);
      SplitSandwich(m, last, m.maxRate, dt, true);
    }
  }

  lemma CapRegime(m: Model, last: u64, dt: u64, gd: u64)
    requires m.expRate > 0 && dt < -I64_MIN && HitsCap(m, last, gd) && last < m.maxRate
    ensures Rising(m, last, dt, gd) == Split(m, last, m.maxRate, dt, true)
    ensures Split(m, last, m.maxRate, dt, true).Ok?
  {
    SplitDefined(m, last, m.maxRate, dt, true);
  }

  /** A flat window at a bound pays that rate, and so at most any higher one. */
  lemma FlatWindow(rate: nat, high: nat, dt: nat, e: nat)
    requires rate <= high
    ensures PaysAtMost(high, e * dt, rate * dt, e)
  {
    MulMono(rate, high, dt, dt);
    FlatPays(high, dt, rate * dt, e);
  }

  lemma CapDistance(m: Model, last: u64, dt: u64, gd: u64)
    requires NAD - m.expRate * dt <= gd && HitsCap(m, last, gd)
    ensures last > 0 && (m.maxRate - last) * NAD <= m.maxRate * (m.expRate * dt)
  {
    var g := Max(gd, 1);
    MulMono(0, m.expRate, 0, dt);
    FloorSpec(last * NAD, g);
    MulMono(m.maxRate, last * NAD / g, g, g);
    MoveAtMost(m.maxRate, last, m.expRate * dt, g);
  }

  lemma FlooredSandwich(m: Model, last: u64, dt: u64, gd: u64)
    requires m.expRate > 0 && dt < -I64_MIN && m.minRate <= last
    requires NAD - m.expRate * dt <= gd && HitsFloor(m, last, gd)
    ensures Falling(m, last, dt, gd).Ok?
    ensures var (r, i) := Falling(m, last, dt, gd).value;
      && r == m.minRate <= last
      && r * dt <= i
      && PaysAtMost(last, m.expRate * dt, i, m.expRate)
  {
    var e := m.expRate;
    MulMono(0, e, 0, dt);
    MulMono(0, last, 0, gd);
    FloorSpec(last * gd, NAD);
    if last <= m.minRate {
      FlatWindow(m.minRate, last, dt, e);
    } else {
      SplitDefined(m, last, m.minRate, dt, false);
      MoveAtMost(last, m.minRate, e * dt, gd);
      SplitSandwich(m, last, m.minRate, dt, false);
    }
  }

  /** Every window, saturated or not: interest lies between flat accrual at the lower and at
      the higher of the two end rates, up to the stated rounding. The upper bound always holds,
      the lower one fails exactly in an uncapped rise that outlasts its growth. A window that
      reaches floor or cap pays the lower rate in full. */
  lemma WindowSandwich(m: Model, last: u64, dt: u64, util: u64) returns (gd: u64)
    requires m.expRate > 0 && Representable(m, dt) && m.minRate <= last
    ensures DecayFactor(m, dt) == Ok(gd)
    ensures Window(m, last, dt, util).Ok?
    ensures Sandwich(m, last, dt, util, gd, Window(m, last, dt, util).value)
  {
    gd := WindowDecay(m, last, dt, util);
    RegimeSandwich(m, last, dt, util, gd);
  }

  predicate Sandwich(m: Model, last: u64, dt: u64, util: u64, gd: u64, w: (u128, u128))
    requires m.expRate > 0
  {
    var low, high := Min(last, w.0), Max(last, w.0);
    && (PaysAtLeast(low, m.expRate * dt, w.1, m.expRate) <==> !Undercharges(m, last, dt, util, gd))
    && (Saturates(m, last, util, gd) ==> low * dt <= w.1)
    && PaysAtMost(high, m.expRate * dt, w.1, m.expRate)
  }

  predicate Undercharges(m: Model, last: u64, dt: u64, util: u64, gd: u64)
    requires m.expRate > 0
  {
    util > m.targetEnd && gd == 0 && !HitsCap(m, last, gd) && Outlasts(last, m.expRate * dt, m.expRate)
  }

  lemma RegimeSandwich(m: Model, last: u64, dt: u64, util: u64, gd: u64)
    requires m.expRate > 0 && Representable(m, dt) && m.minRate <= last
    requires NAD - m.expRate * dt <= gd <= NAD
    requires gd * (NAD + 10 * (m.expRate * dt / 10)) <= NAD * NAD
    ensures Regime(m, last, dt, util, gd).Ok?
    ensures Sandwich(m, last, dt, util, gd, Regime(m, last, dt, util, gd).value)
  {
    MulMono(1, m.expRate, dt, dt);
    if util > m.targetEnd {
      if HitsCap(m, last, gd) {
        CappedSandwich(m, last, dt, gd);
      } else {
        RisingSandwich(m, last, dt, gd);
      }
    } else if util < m.targetStart {
      if HitsFloor(m, last, gd) {
        FlooredSandwich(m, last, dt, gd);
      } else {
        FallingSandwich(m, last, dt, gd);
      }
    }
    var (r, i) := Regime(m, last, dt, util, gd).value;
    var low, high := Min(last, r), Max(last, r);
    FlatPays(low, dt, i, m.expRate);
    FlatPays(high, dt, i, m.expRate);
    MulMono(0, high, 0, m.expRate + 2);
  }

  /** What the pair charges for a window that reaches floor or cap: at least a year's share
      of the lower end rate, rounded up. */
  lemma SaturatedWindowCharges(m: Model, lastRate: u64, dt: u64, util: u64) returns (gd: u64)
    requires m.expRate > 0 && dt > 0 && Representable(m, dt)
    ensures DecayFactor(m, dt) == Ok(gd) && CalculateRate(m, lastRate, dt, util).Ok?
    ensures var last := Max(lastRate, m.minRate);
      var (r, charged) := CalculateRate(m, lastRate, dt, util).value;
      Saturates(m, last, util, gd) ==> charged >= Min(Ceil(Min(last, r) * dt, MILLISECONDS_PER_YEAR), U64_MAX)
  {
    var last := Max(lastRate, m.minRate);
    gd := WindowSandwich(m, last, dt, util);
    var w := Window(m, last, dt, util).value;
    if Saturates(m, last, util, gd) {
      MulMono(0, Min(last, Min(w.0, U64_MAX)), 0, dt);
      MulMono(Min(last, Min(w.0, U64_MAX)), Min(last, w.0), dt, dt);
      PerYearAtLeast(w.1, Min(last, Min(w.0, U64_MAX)) * dt);
    }
  }

  lemma PerYearAtLeast(i: u128, flat: nat)
    requires flat <= i
    ensures Min(PerYear(i), U64_MAX) >= Min(Ceil(flat, MILLISECONDS_PER_YEAR), U64_MAX)
  {
    FloorMono(flat + MILLISECONDS_PER_YEAR - 1, i + MILLISECONDS_PER_YEAR - 1, MILLISECONDS_PER_YEAR);
  }

  /** Interest between flat accrual at the lower and at the higher of two end rates. */
  predicate PaysBetween(m: Model, last: u64, dt: u64, w: (u128, u128)) {
    && PaysAtLeast(Min(last, w.0), m.expRate * dt, w.1, m.expRate)
    && PaysAtMost(Max(last, w.0), m.expRate * dt, w.1, m.expRate)
  }

  /** An exponent of at most about NAD^2, which takes millennia to exceed. */
  predicate Short(m: Model, dt: u64) {
    m.expRate * dt <= NAD * (NAD - 1) + 9
  }

  lemma ShortWindowPaysBetween(m: Model, last: u64, dt: u64, util: u64)
    requires m.expRate > 0 && Short(m, dt) && m.minRate <= last
    ensures Window(m, last, dt, util).Ok?
    ensures PaysBetween(m, last, dt, Window(m, last, dt, util).value)
  {
    MulMono(0, m.expRate, 0, dt);
    var gd := WindowSandwich(m, last, dt, util);
    ShortNeverOutlasts(last, m.expRate * dt, m.expRate);
  }

  /** The failing half is not empty: an uncapped rise from a rate of at least one, over an
      exponent of at least 2 * NAD^2, pays less than the start rate throughout. */
  lemma EndlessRiseUndercharges(m: Model, last: u64, dt: u64, util: u64)
    requires m.expRate > 0 && Representable(m, dt) && m.minRate <= last
    requires m.maxRate == 0 && util > m.targetEnd && last >= NAD && m.expRate * dt >= 2 * NAD * NAD
    ensures Window(m, last, dt, util).Ok? && !PaysBetween(m, last, dt, Window(m, last, dt, util).value)
  {
    var x, e := m.expRate * dt, m.expRate;
    var gd := WindowSandwich(m, last, dt, util);
    var decay := WindowDecay(m, last, dt, util);
    if gd >= 1 {
      MulMono(1, gd, NAD + 10 * (x / 10), NAD + 10 * (x / 10));
    }
    MulMono(NAD, last, NAD * NAD, x - NAD * (NAD - 1) - 9);
  }
}
