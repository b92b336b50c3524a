/** How far the rate moves in one window, on the result of calculate_rate itself, what the window
    charges for a year's share of its integral, and what the documented half-life comes to. */
module RateMotion {
  import opened Words
  import opened Nonlinear
  import opened Kernels
  import opened Logarithm
  import opened RateModel
  import opened RateBounds
  import opened Interest

  /** Where a window from rate `last` ends, up to rounding, x being its exponent: at the cap or
      the floor when it reaches them, unmoved inside the band, and otherwise between the first
      order of growth or decay and its rational bound. */
  predicate RateMoves(m: Model, last: u64, dt: u64, util: u64, gd: u64, r: u64) {
    var x := m.expRate * dt;
    if util > m.targetEnd then
      if HitsCap(m, last, gd) then r == m.maxRate
      else
        && last <= r && (r - last) * NAD <= r * x
        && (gd >= 1 && r < U64_MAX ==> last * x <= (r - last) * NAD + 9 * last + NAD)
        && (gd == 0 ==> r == Min(last * NAD, U64_MAX))
    else if util < m.targetStart then
      if HitsFloor(m, last, gd) then r == m.minRate
      else
        && r <= last && (last - r) * NAD <= last * x + NAD
        && r * x <= (last - r) * NAD + 9 * r
    else r == last
  }

  /** Every window of calculate_rate moves the rate so, and not only in the right direction. */
  lemma CalculatedRateMoves(m: Model, lastRate: u64, dt: u64, util: u64) returns (gd: u64)
    requires m.expRate > 0 && dt > 0 && Representable(m, dt)
    ensures DecayFactor(m, dt) == Ok(gd) && CalculateRate(m, lastRate, dt, util).Ok?
    ensures RateMoves(m, Max(lastRate, m.minRate), dt, util, gd, CalculateRate(m, lastRate, dt, util).value.0)
  {
    var last := Max(lastRate, m.minRate);
    gd := WindowSandwich(m, last, dt, util);
    var decay := WindowDecay(m, last, dt, util);
    RegimeMoves(m, last, dt, util, gd);
  }

  lemma RegimeMoves(m: Model, last: u64, dt: u64, util: u64, gd: u64)
    requires m.expRate > 0 && Representable(m, dt) && m.minRate <= last
    requires NAD - m.expRate * dt <= gd <= NAD
    requires gd * (NAD + 10 * (m.expRate * dt / 10)) <= NAD * NAD
    ensures Regime(m, last, dt, util, gd).Ok?
    ensures RateMoves(m, last, dt, util, gd, Min(Regime(m, last, dt, util, gd).value.0, U64_MAX))
  {
    MulMono(1, m.expRate, dt, dt);
    if util > m.targetEnd {
      if HitsCap(m, last, gd) {
        CappedSandwich(m, last, dt, gd);
      } else {
        RisingSandwich(m, last, dt, gd);
        CutGrowth(last, Rising(m, last, dt, gd).value.0, m.expRate * dt);
      }
    } else if util < m.targetStart {
      if HitsFloor(m, last, gd) {
        FlooredSandwich(m, last, dt, gd);
      } else {
        FallingSandwich(m, last, dt, gd);
      }
    }
  }

  /** The upper bound on growth survives the clamp to 64 bits. */
  lemma CutGrowth(last: u64, r: nat, x: nat)
    requires last <= r && (r - last) * NAD <= r * x
    ensures var cut := Min(r, U64_MAX);
      last <= cut && (cut - last) * NAD <= cut * x
  {
    var cut := Min(r, U64_MAX);
    if x < NAD {
      MulMono(cut, r, NAD - x, NAD - x);
      DistributeMinus(NAD, x, r);
      DistributeMinus(NAD, x, cut);
    } else {
      MulMono(cut, cut, NAD, x);
      MulMono(0, last, 0, NAD);
    }
    DistributeMinus(r, last, NAD);
    DistributeMinus(cut, last, NAD);
  }

  /** No time, no change and no charge. */
  lemma NoTimeNoCharge(m: Model, lastRate: u64, util: u64)
    ensures CalculateRate(m, lastRate, 0, util) == Ok((lastRate, 0))
  {
  }

  /** Every window charges exactly its integral over a year of 31,536,000,000 milliseconds,
      rounded up and cut to 64 bits: the fallback that would round down is never taken. */
  lemma ChargedIsYearShare(m: Model, lastRate: u64, dt: u64, util: u64)
    requires dt > 0 && Representable(m, dt) && dt < -I64_MIN
    requires CalculateRate(m, lastRate, dt, util).Ok?
    ensures Window(m, Max(lastRate, m.minRate), dt, util).Ok?
    ensures CalculateRate(m, lastRate, dt, util).value.1
         == Min(Ceil(Window(m, Max(lastRate, m.minRate), dt, util).value.1, 31_536_000_000), U64_MAX)
  {
    var last := Max(lastRate, m.minRate);
    var gd := WindowDecay(m, last, dt, util);
    IntegralBelow(m, last, dt, util, gd);
    CeilDivIsCeil(Window(m, last, dt, util).value.1, MILLISECONDS_PER_YEAR);
  }

  lemma IntegralBelow(m: Model, last: u64, dt: u64, util: u64, gd: u64)
    requires dt < -I64_MIN && gd <= NAD && Regime(m, last, dt, util, gd).Ok?
    ensures Regime(m, last, dt, util, gd).value.1 + 31_536_000_000 <= U128_MAX
  {
    var e := m.expRate;
    MulMono(last, U64_MAX, dt, -I64_MIN);
    MulMono(m.maxRate, U64_MAX, dt, -I64_MIN);
    MulMono(m.minRate, U64_MAX, dt, -I64_MIN);
    if util > m.targetEnd {
      GrowthFits(last, gd, e);
      if HitsCap(m, last, gd) && last < m.maxRate {
        SplitFits(m, last, m.maxRate, dt, true);
      }
    } else if util < m.targetStart {
      DecayFits(last, gd, e);
      if HitsFloor(m, last, gd) && m.minRate < last {
        SplitFits(m, last, m.minRate, dt, false);
      }
    }
  }

  lemma GrowthFits(last: u64, gd: u64, e: u64)
    ensures e > 0 ==>
      0 <= SaturatingSub(last * NAD / Max(gd, 1), last) * NAD / e <= U64_MAX * NAD * NAD
  {
    FloorAntitone(last * NAD, 1, Max(gd, 1));
    if e > 0 {
      FloorAntitone(SaturatingSub(last * NAD / Max(gd, 1), last) * NAD, 1, e);
    }
  }

  lemma DecayFits(last: u64, gd: u64, e: u64)
    requires gd <= NAD
    ensures 0 <= last * gd / NAD <= last
    ensures e > 0 ==> 0 <= SaturatingSub(last, last * gd / NAD) * NAD / e <= U64_MAX * NAD
  {
    MulMono(last, last, gd, NAD);
    FloorMono(last * gd, last * NAD, NAD);
    FloorAtLeast(0, last * gd, NAD);
    if e > 0 {
      FloorAntitone(SaturatingSub(last, last * gd / NAD) * NAD, 1, e);
    }
  }

  lemma SplitFits(m: Model, last: u64, bound: u64, dt: u64, up: bool)
    requires dt < -I64_MIN && Split(m, last, bound, dt, up).Ok?
    ensures Split(m, last, bound, dt, up).value.1 + 31_536_000_000 <= U128_MAX
  {
    var distance := if up then SaturatingSub64(bound, last) else SaturatingSub64(last, bound);
    CeilDivIsCeil(distance * NAD, m.expRate);
    CeilAtMost(distance * NAD, distance * NAD, m.expRate);
    MulMono(1, m.expRate, distance * NAD, distance * NAD);
    var time := TimeToReach(last, bound, m.expRate, up).value;
    MulMono(bound, U64_MAX, dt - Min(time, dt), -I64_MIN);
  }

  /** The time to double, and to halve, is ln 2 over the growth constant, rounded down: what a
      window takes to reach a bound twice or half its rate. */
  lemma DoublingTime(low: u64, high: u64, e: u64)
    requires 0 < low && high == 2 * low && e > 0
    ensures TimeToReach(low, high, e, true) == Ok(693_147_180 / e)
    ensures TimeToReach(high, low, e, false) == Ok(693_147_180 / e)
  {
    var ratio := high * NAD / low;
    LnOfTwice(low, high, ratio);
    TravelFrom(low, high, e, ratio, LnNad(ratio));
  }

  lemma LnOfTwice(low: nat, high: nat, ratio: nat)
    requires low > 0 && high == 2 * low && ratio == high * NAD / low
    ensures 0 < ratio <= U64_MAX && LnNad(ratio) == 693_147_180
  {
    TwiceIsTwo(low, high, ratio);
    LnOfTwo();
  }

  lemma TwiceIsTwo(low: nat, high: nat, ratio: nat)
    requires low > 0 && high == 2 * low && ratio == high * NAD / low
    ensures ratio == 2_000_000_000
  {
    FloorAtLeast(2_000_000_000, high * NAD, low);
    FloorAtLeast(2_000_000_001, high * NAD, low);
  }

  lemma LnOfTwo()
    ensures LnNad(2_000_000_000) == 693_147_180
  {
    LnTable();
    DoublingAddsLn2(1_000_000_000);
  }

  lemma TravelFrom(low: u64, high: u64, e: u64, ratio: nat, ln: nat)
    requires 0 < low < high && e > 0 && high * NAD / low == ratio && 0 < ratio <= U64_MAX && LnNad(ratio) == ln
    ensures TimeToReach(low, high, e, true) == Ok(ln / e) && TimeToReach(high, low, e, false) == Ok(ln / e)
  {
    FloorAtLeast(0, ln, e);
  }

  // ---------------------------------------------------------------- the constants

  /** A model's constants from its parameters: basis points times 100,000, and the floor of
      ln 2 over the half-life. */
  lemma ModelValues(startBps: u64, endBps: u64, halfLifeMs: u64, minBps: u64, maxBps: u64, initialBps: u64)
    requires ValidUtilBounds(startBps, endBps) && ValidRateParams(halfLifeMs, minBps, maxBps, initialBps)
    ensures New(startBps, endBps, halfLifeMs, minBps, maxBps, initialBps).Ok?
    ensures var m := New(startBps, endBps, halfLifeMs, minBps, maxBps, initialBps).value;
      && m.targetStart == startBps * 100_000 && m.targetEnd == endBps * 100_000
      && m.minRate == minBps * 100_000 && m.maxRate == maxBps * 100_000 && m.initialRate == initialBps * 100_000
      && m.halfLifeMs == halfLifeMs
      && m.expRate * halfLifeMs <= 693_147_180 < (m.expRate + 1) * halfLifeMs
  {
    FloorSpec(LN2_NAD, halfLifeMs);
    FloorAtLeast(0, LN2_NAD, halfLifeMs);
    BpsToNadValue(startBps);
    BpsToNadValue(endBps);
    BpsToNadValue(minBps);
    BpsToNadValue(maxBps);
    BpsToNadValue(initialBps);
  }
}
