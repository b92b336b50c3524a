/** What a window of the rate model guarantees: where the rate goes, when the computation is
    defined, and how the charged interest compares with flat accrual at the end points. */
module RateBounds {
  import opened Words
  import opened Nonlinear
  import opened Kernels
  import opened Logarithm
  import opened RateModel
  import Exponential

  /** The window's exponent survives the cast to i64. */
  predicate Representable(m: Model, dt: u64) {
    m.expRate * dt < -I64_MIN
  }

  predicate InBand(m: Model, util: u64) {
    m.targetStart <= util <= m.targetEnd
  }

  // ---------------------------------------------------------------- where the rate goes

  lemma RisingRate(m: Model, last: u64, dt: u64, gd: u64)
    requires gd <= NAD && Rising(m, last, dt, gd).Ok?
    ensures var r := Rising(m, last, dt, gd).value.0;
      && (m.maxRate > 0 ==> r <= m.maxRate)
      && Min(last, if m.maxRate > 0 then m.maxRate else last) <= r
  {
    FloorAntitone(last * NAD, Max(gd, 1), NAD);
  }

  lemma FallingRate(m: Model, last: u64, dt: u64, gd: u64)
    requires gd <= NAD && m.minRate <= last && Falling(m, last, dt, gd).Ok?
    ensures m.minRate <= Falling(m, last, dt, gd).value.0 <= last
  {
    MulMono(last, last, gd, NAD);
    FloorMono(last * gd, last * NAD, NAD);
  }

  /** One window: the floor holds, the cap holds, and the rate moves only the right way. */
  lemma RateMovesTheRightWay(m: Model, lastRate: u64, dt: u64, util: u64)
    requires Representable(m, dt) && m.targetStart <= m.targetEnd
    requires CalculateRate(m, lastRate, dt, util).Ok?
    ensures var r := CalculateRate(m, lastRate, dt, util).value.0;
      && (m.minRate <= lastRate && (m.maxRate > 0 ==> m.minRate <= m.maxRate) ==> m.minRate <= r)
      && (m.maxRate > 0 && m.minRate <= m.maxRate && lastRate <= m.maxRate ==> r <= m.maxRate)
      && (util > m.targetEnd && (m.maxRate > 0 ==> lastRate <= m.maxRate) ==> lastRate <= r)
      && (util < m.targetStart && m.minRate <= lastRate ==> r <= lastRate)
      && (InBand(m, util) && m.minRate <= lastRate ==> r == lastRate)
  {
    if dt > 0 {
      var last := Max(lastRate, m.minRate);
      var gd := WindowDecay(m, last, dt, util);
      RegimeRate(m, last, dt, util, gd);
    }
  }

  /** A representable window has a decay factor between 0 and one with both rational bounds. */
  lemma WindowDecay(m: Model, last: u64, dt: u64, util: u64) returns (gd: u64)
    requires Representable(m, dt)
    ensures DecayFactor(m, dt) == Ok(gd)
    ensures NAD - m.expRate * dt <= gd <= NAD
    ensures gd * (NAD + 10 * (m.expRate * dt / 10)) <= NAD * NAD
    ensures Window(m, last, dt, util) == Regime(m, last, dt, util, gd)
  {
    MulMono(0, m.expRate, 0, dt);
    Exponential.DecayBounds(m.expRate * dt);
    gd := Decay(m.expRate * dt).value;
  }

  lemma RegimeRate(m: Model, last: u64, dt: u64, util: u64, gd: u64)
    requires gd <= NAD && m.minRate <= last && m.targetStart <= m.targetEnd
    requires Regime(m, last, dt, util, gd).Ok?
    ensures var r := Regime(m, last, dt, util, gd).value.0;
      && ((m.maxRate > 0 ==> m.minRate <= m.maxRate) ==> m.minRate <= r)
      && (0 < m.maxRate && last <= m.maxRate ==> r <= m.maxRate)
      && (util > m.targetEnd ==> Min(last, if m.maxRate > 0 then m.maxRate else last) <= r)
      && (util < m.targetStart ==> r <= last)
      && (InBand(m, util) ==> r == last)
  {
    if util > m.targetEnd {
      RisingRate(m, last, dt, gd);
    } else if util < m.targetStart {
      FallingRate(m, last, dt, gd);
    }
  }

  datatype Elapsed = Elapsed(dt: u64, util: u64)

  /** The rate after a run of windows. */
  function RunRates(m: Model, rate: u64, windows: seq<Elapsed>): Result<u64>
    decreases |windows|
  {
    if windows == [] then Ok(rate)
    else
      var first :- CalculateRate(m, rate, windows[0].dt, windows[0].util);
      RunRates(m, first.0, windows[1..])
  }

  /** Over any run of windows the rate stays between floor and cap. */
  lemma {:induction false} RunStaysInBounds(m: Model, rate: u64, windows: seq<Elapsed>)
    requires m.targetStart <= m.targetEnd && (m.maxRate > 0 ==> m.minRate <= m.maxRate)
    requires m.minRate <= rate && (m.maxRate > 0 ==> rate <= m.maxRate)
    requires forall w <- windows :: Representable(m, w.dt)
    requires RunRates(m, rate, windows).Ok?
    ensures m.minRate <= RunRates(m, rate, windows).value
    ensures m.maxRate > 0 ==> RunRates(m, rate, windows).value <= m.maxRate
    decreases |windows|
  {
    if windows != [] {
      var w := windows[0];
      assert w in windows;
      RateMovesTheRightWay(m, rate, w.dt, w.util);
      RunStaysInBounds(m, CalculateRate(m, rate, w.dt, w.util).value.0, windows[1..]);
    }
  }

  // ---------------------------------------------------------------- when it is defined

  /** With a representable exponent the one panic left is a zero growth constant outside the
      band, unless the rate already sits above the cap. */
  lemma WindowDefinedIff(m: Model, last: u64, dt: u64, util: u64)
    requires Representable(m, dt) && m.minRate <= last && m.targetStart <= m.targetEnd
    ensures Window(m, last, dt, util).Ok? <==>
      m.expRate > 0 || InBand(m, util) || (util > m.targetEnd && 0 < m.maxRate < last)
  {
    if m.expRate > 0 {
      GrowingWindowDefined(m, last, dt, util);
    } else {
      FrozenWindowDefinedIff(m, last, dt, util);
    }
  }

  lemma GrowingWindowDefined(m: Model, last: u64, dt: u64, util: u64)
    requires Representable(m, dt) && m.expRate > 0
    ensures Window(m, last, dt, util).Ok?
  {
    var gd := WindowDecay(m, last, dt, util);
    MulMono(1, m.expRate, dt, dt);
    SplitDefined(m, last, m.maxRate, dt, true);
    SplitDefined(m, last, m.minRate, dt, false);
  }

  lemma FrozenWindowDefinedIff(m: Model, last: u64, dt: u64, util: u64)
    requires m.expRate == 0 && m.minRate <= last && m.targetStart <= m.targetEnd
    ensures Window(m, last, dt, util).Ok? <==>
      InBand(m, util) || (util > m.targetEnd && 0 < m.maxRate < last)
  {
    FrozenDecay(m, last, dt, util);
    FrozenRegimeDefinedIff(m, last, dt, util);
  }

  lemma FrozenDecay(m: Model, last: u64, dt: u64, util: u64)
    requires m.expRate == 0
    ensures Window(m, last, dt, util) == Regime(m, last, dt, util, NAD)
  {
    assert m.expRate * dt == 0;
    var gd := WindowDecay(m, last, dt, util);
    assert gd == NAD;
  }

  lemma FrozenRegimeDefinedIff(m: Model, last: u64, dt: u64, util: u64)
    requires m.expRate == 0 && m.minRate <= last && m.targetStart <= m.targetEnd
    ensures Regime(m, last, dt, util, NAD).Ok? <==>
      InBand(m, util) || (util > m.targetEnd && 0 < m.maxRate < last)
  {
    assert last * NAD / NAD == last;
  }

  lemma SplitDefined(m: Model, last: u64, bound: u64, dt: u64, up: bool)
    requires m.expRate > 0 && dt < -I64_MIN
    ensures Split(m, last, bound, dt, up).Ok?
  {
    var distance := if up then SaturatingSub64(bound, last) else SaturatingSub64(last, bound);
    var time := TimeToReach(last, bound, m.expRate, up).value;
    var t := Min(time, dt);
    CeilDivIsCeil(distance * NAD, m.expRate);
    CeilAtMost(distance * NAD, distance * NAD, m.expRate);
    MulMono(1, m.expRate, distance * NAD, distance * NAD);
    MulMono(bound, U64_MAX, dt - t, 0x7FFF_FFFF_FFFF_FFFF);
  }

  /** Validation admits half-lives up to thirty days, but the growth constant is zero exactly
      when the half-life exceeds 693,147,180 ms, a little over eight days. */
  lemma GrowthConstantVanishesIff(
    startBps: u64, endBps: u64, halfLifeMs: u64, minBps: u64, maxBps: u64, initialBps: u64)
    requires ValidUtilBounds(startBps, endBps) && ValidRateParams(halfLifeMs, minBps, maxBps, initialBps)
    ensures New(startBps, endBps, halfLifeMs, minBps, maxBps, initialBps).Ok?
    ensures New(startBps, endBps, halfLifeMs, minBps, maxBps, initialBps).value.expRate == 0 <==> halfLifeMs > LN2_NAD
  {
    FloorAtLeast(1, LN2_NAD, halfLifeMs);
    FloorAtLeast(0, LN2_NAD, halfLifeMs);
  }

  /** Validated parameters give ordered bounds: the premises of the run theorem. */
  lemma ValidatedModelIsOrdered(startBps: u64, endBps: u64, halfLifeMs: u64, minBps: u64, maxBps: u64, initialBps: u64)
    requires ValidUtilBounds(startBps, endBps) && ValidRateParams(halfLifeMs, minBps, maxBps, initialBps)
    ensures New(startBps, endBps, halfLifeMs, minBps, maxBps, initialBps).Ok?
    ensures var m := New(startBps, endBps, halfLifeMs, minBps, maxBps, initialBps).value;
      && m.targetStart < m.targetEnd <= NAD
      && m.minRate <= m.initialRate
      && (m.maxRate > 0 <==> maxBps > 0)
      && (m.maxRate > 0 ==> m.minRate <= m.initialRate <= m.maxRate <= 10 * NAD)
  {
    FloorAtLeast(0, LN2_NAD, halfLifeMs);
    BpsToNadValue(startBps);
    BpsToNadValue(endBps);
    BpsToNadValue(minBps);
    BpsToNadValue(maxBps);
    BpsToNadValue(initialBps);
  }

  /** A validated thirty-day model fails on its first window above the band. */
  lemma ThirtyDayModelFails()
    ensures ValidUtilBounds(3_000, 5_000) && ValidRateParams(2_592_000_000, 100, 0, 200)
    ensures New(3_000, 5_000, 2_592_000_000, 100, 0, 200)
         == Ok(Model(0, 300_000_000, 500_000_000, 2_592_000_000, 10_000_000, 0, 20_000_000))
    ensures CalculateRate(New(3_000, 5_000, 2_592_000_000, 100, 0, 200).value, 20_000_000, 400, 900_000_000).Err?
  {
    var m := Model(0, 300_000_000, 500_000_000, 2_592_000_000, 10_000_000, 0, 20_000_000);
    forall bps | bps in {3_000, 5_000, 100, 0, 200}
      ensures BpsToNad(bps) == bps * 100_000
    {
      BpsToNadValue(bps);
    }
    assert LN2_NAD / 2_592_000_000 == 0;
    FrozenWindowDefinedIff(m, 20_000_000, 400, 900_000_000);
  }

  lemma BpsToNadValue(bps: u64)
    requires bps <= MAX_ALLOWED_RATE_BPS
    ensures BpsToNad(bps) == bps * 100_000
  {
    assert NAD * bps / BPS == bps * 100_000;
  }
}
