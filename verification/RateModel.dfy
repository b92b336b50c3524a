/** The interest rate model of state/rate_model.rs: parameters, their validation, and one
    window of rate evolution with the interest it accrues. */
module RateModel {
  import opened Words
  import opened Nonlinear
  import opened Kernels
  import opened Logarithm

  const MAX_ALLOWED_RATE_BPS: int := 100_000
  const MIN_INITIAL_RATE_BPS: int := 10
  const MAX_INITIAL_RATE_BPS: int := 10_000
  const MIN_RATE_HALF_LIFE_MS: int := 3_600_000
  const MAX_RATE_HALF_LIFE_MS: int := 2_592_000_000
  const MIN_TARGET_UTIL_BPS: int := 100
  const MAX_TARGET_UTIL_BPS: int := 10_000

  datatype Model = Model(
    expRate: u64, targetStart: u64, targetEnd: u64, halfLifeMs: u64,
    minRate: u64, maxRate: u64, initialRate: u64)

  function BpsToNad(bps: u64): u64 {
    AsU64(NAD * bps / BPS)
  }

  function New(startBps: u64, endBps: u64, halfLifeMs: u64, minBps: u64, maxBps: u64, initialBps: u64): Result<Model> {
    if halfLifeMs == 0 then Err(Panic)
    else
      FloorAntitone(LN2_NAD, 1, halfLifeMs);
      Ok(Model(LN2_NAD / halfLifeMs, BpsToNad(startBps), BpsToNad(endBps), halfLifeMs,
               BpsToNad(minBps), BpsToNad(maxBps), BpsToNad(initialBps)))
  }

  predicate ValidUtilBounds(startBps: u64, endBps: u64) {
    startBps < endBps && startBps >= MIN_TARGET_UTIL_BPS && endBps <= MAX_TARGET_UTIL_BPS
  }

  predicate ValidRateParams(halfLifeMs: u64, minBps: u64, maxBps: u64, initialBps: u64) {
    && MIN_RATE_HALF_LIFE_MS <= halfLifeMs <= MAX_RATE_HALF_LIFE_MS
    && minBps <= MAX_ALLOWED_RATE_BPS
    && (maxBps > 0 ==> maxBps <= MAX_ALLOWED_RATE_BPS && minBps <= maxBps)
    && MIN_INITIAL_RATE_BPS <= initialBps <= MAX_INITIAL_RATE_BPS
    && minBps <= initialBps
    && (maxBps > 0 ==> initialBps <= maxBps)
  }

  /** Milliseconds for a rate to travel from low to high (or back): ln(high / low) / e. */
  function TravelTime(high: u64, low: u64, expRate: u64): Result<nat> {
    FloorAntitone(high * NAD, 1, Max(low, 1));
    var ratio := Min(high * NAD / Max(low, 1), U64_MAX);
    if ratio == 0 then Ok(0)
    else if expRate == 0 then Err(Panic)
    else Ok(Max(0, TruncDiv(LnNad(ratio), expRate)))
  }

  function TimeToReach(r0: u64, target: u64, expRate: u64, up: bool): Result<nat> {
    if up then
      if target <= r0 then Ok(0) else TravelTime(target, r0, expRate)
    else
      if r0 <= target then Ok(0) else TravelTime(r0, target, expRate)
  }

  /** `ceil_div(a, b).unwrap_or(a / b)` */
  function CeilOrFloor(a: u128, b: u128): u128
    requires b > 0
  {
    FloorAntitone(a, 1, b);
    match CeilDiv(a, b)
    case Some(q) => q
    case None => a / b
  }

  /** A window that reaches a bound: exponential up to (or down to) the bound, flat after. */
  function Split(m: Model, last: u64, bound: u64, dt: u64, up: bool): Result<(u128, u128)> {
    var time :- TimeToReach(last, bound, m.expRate, up);
    var t := Min(time, dt);
    var distance := if up then SaturatingSub64(bound, last) else SaturatingSub64(last, bound);
    if m.expRate == 0 then Err(Panic)
    else
      var expPart := CeilOrFloor(distance * NAD, m.expRate);
      MulMono(bound, U64_MAX, dt - t, U64_MAX);
      var total :- OkOr(CheckedAdd(expPart, bound * (dt - t)), Panic);
      Ok((bound, total))
  }

  function Rising(m: Model, last: u64, dt: u64, gd: u64): Result<(u128, u128)> {
    FloorAntitone(last * NAD, 1, Max(gd, 1));
    var unclamped: u128 := last * NAD / Max(gd, 1);
    if m.maxRate > 0 && unclamped > m.maxRate then
      if last >= m.maxRate then
        MulMono(m.maxRate, U64_MAX, dt, U64_MAX);
        Ok((m.maxRate, m.maxRate * dt))
      else
        Split(m, last, m.maxRate, dt, true)
    else if m.expRate == 0 then Err(Panic)
    else
      FloorAntitone(SaturatingSub(unclamped, last) * NAD, 1, m.expRate);
      Ok((unclamped, SaturatingSub(unclamped, last) * NAD / m.expRate))
  }

  function Falling(m: Model, last: u64, dt: u64, gd: u64): Result<(u128, u128)> {
    MulMono(last, U64_MAX, gd, U64_MAX);
    FloorAntitone(last * gd, 1, NAD);
    var unclamped: u128 := last * gd / NAD;
    if unclamped >= m.minRate then
      if m.expRate == 0 then Err(Panic)
      else
        FloorAntitone(SaturatingSub(last, unclamped) * NAD, 1, m.expRate);
        Ok((unclamped, SaturatingSub(last, unclamped) * NAD / m.expRate))
    else if last <= m.minRate then
      MulMono(m.minRate, U64_MAX, dt, U64_MAX);
      Ok((m.minRate, m.minRate * dt))
    else
      Split(m, last, m.minRate, dt, false)
  }

  /** The three regimes, given the decay factor of the window. */
  function Regime(m: Model, last: u64, dt: u64, util: u64, gd: u64): Result<(u128, u128)> {
    if util > m.targetEnd then Rising(m, last, dt, gd)
    else if util < m.targetStart then Falling(m, last, dt, gd)
    else
      MulMono(last, U64_MAX, dt, U64_MAX);
      Ok((last, last * dt))
  }

  /** e^(-expRate * dt) in fixed point. */
  function DecayFactor(m: Model, dt: u64): Result<u64> {
    MulMono(m.expRate, U64_MAX, dt, U64_MAX);
    Decay(m.expRate * dt)
  }

  /** One window from rate `last`: the new rate, and the integral of the rate over the
      window in NAD-milliseconds, before the division by a year. */
  function Window(m: Model, last: u64, dt: u64, util: u64): Result<(u128, u128)> {
    var gd :- DecayFactor(m, dt);
    Regime(m, last, dt, util, gd)
  }

  function PerYear(integral: u128): u128 {
    CeilOrFloor(integral, MILLISECONDS_PER_YEAR)
  }

  /** (current rate, rate * dt / YEAR), both clamped to 64 bits. */
  function CalculateRate(m: Model, lastRate: u64, dt: u64, util: u64): Result<(u64, u64)> {
    if dt == 0 then Ok((lastRate, 0))
    else
      var w :- Window(m, Max(lastRate, m.minRate), dt, util);
      Ok((Min(w.0, U64_MAX), Min(PerYear(w.1), U64_MAX)))
  }
}
