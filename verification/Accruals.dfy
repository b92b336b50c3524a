/** What one window of interest charges: the exact amounts on one side and, through the pair's
    update, on both, and when the update succeeds at all. */
module Accruals {
  import opened Words
  import opened Nonlinear
  import opened Kernels
  import opened RateModel
  import opened Ledger
  import opened Books
  import opened PairState
  import Average
  import RateBounds
  import RateMotion

  /** Interest of a window, rounded up, and the protocol fee on top of it, rounded down. */
  function InterestOf(debt: nat, integral: nat): nat {
    MulMono(0, debt, 0, integral);
    FloorAtLeast(0, debt * integral + 1_000_000_000 - 1, 1_000_000_000);
    Ceil(debt * integral, 1_000_000_000)
  }

  function FeeOn(interest: nat, bps: nat): nat {
    MulMono(0, interest, 0, bps);
    FloorAtLeast(0, interest * bps, 10_000);
    interest * bps / 10_000
  }

  /** Borrowers owe interest and fee; cash pays the fee as far as it lasts; the reserve grows by
      all of it less what cash paid. */
  predicate Charged(s: Side, s': Side, integral: nat, bps: nat) {
    var i := InterestOf(s.debt, integral);
    var f := FeeOn(i, bps);
    var paid := Min(f, s.cash);
    && s'.debt == s.debt + i + f
    && s'.cash == s.cash - paid
    && s'.reserve == Min(s.reserve + i + f - paid, U64_MAX)
    && s'.shares == s.shares
  }

  /** The accrual succeeds if and only if the debt with interest and fee fits 64 bits, and then
      charges exactly that. */
  lemma AccrueIff(s: Side, integral: u64, bps: u16)
    ensures AccrueSide(s, integral, bps).Ok? <==>
      s.debt + InterestOf(s.debt, integral) + FeeOn(InterestOf(s.debt, integral), bps) <= U64_MAX
    ensures AccrueSide(s, integral, bps).Ok? ==> Charged(s, AccrueSide(s, integral, bps).value, integral, bps)
  {
    MulMono(s.debt, U64_MAX, integral, U64_MAX);
    CeilDivIsCeil(s.debt * integral, NAD);
    var i := InterestOf(s.debt, integral);
    InterestFits(s.debt * integral, i);
    MulMono(i, 400_000_000_000_000_000_000_000_000_000, bps, 0xFFFF);
  }

  lemma InterestFits(product: nat, i: int)
    requires product <= U64_MAX * U64_MAX && i == Ceil(product, NAD)
    ensures i <= 400_000_000_000_000_000_000_000_000_000
  {
    CeilAtMost(400_000_000_000_000_000_000_000_000_000, product, NAD);
  }

  /** One side of an update: the rate's window at the side's own utilisation, then its charge. */
  lemma ChargeIff(m: Model, rate: u64, elapsed: u64, s: Side, bps: u16)
    requires CalculateRate(m, rate, elapsed, Utilization(s)).Ok?
    ensures var window := CalculateRate(m, rate, elapsed, Utilization(s)).value;
      var i := InterestOf(s.debt, window.1);
      && (Charge(m, rate, elapsed, s, bps).Ok? <==> s.debt + i + FeeOn(i, bps) <= U64_MAX)
      && (Charge(m, rate, elapsed, s, bps).Ok? ==>
            && Charge(m, rate, elapsed, s, bps).value.0 == window.0
            && Charged(s, Charge(m, rate, elapsed, s, bps).value.1, window.1, bps))
  {
    AccrueIff(s, CalculateRate(m, rate, elapsed, Utilization(s)).value.1, bps);
  }

  /** Utilisation is the debt's share of the reserve in billionths, rounded down. */
  lemma UtilizationIsShare(s: Side)
    ensures s.reserve == 0 ==> Utilization(s) == 0
    ensures s.reserve > 0 ==> Utilization(s) * s.reserve <= s.debt * 1_000_000_000
    ensures s.reserve > 0 && Utilization(s) < U64_MAX ==> s.debt * 1_000_000_000 < (Utilization(s) + 1) * s.reserve
  {
    if s.reserve > 0 {
      FloorSpec(s.debt * NAD, s.reserve);
      MulMono(Utilization(s), s.debt * NAD / s.reserve, s.reserve, s.reserve);
    }
  }

  // ---------------------------------------------------------------- the update

  function RateOf(p: State, zero: bool): u64 {
    if zero then p.rate0 else p.rate1
  }

  /** The window of one side: its own rate and its own utilisation at entry. */
  function WindowOf(p: State, dt: u64, m: Model, zero: bool): Result<(u64, u64)> {
    CalculateRate(m, RateOf(p, zero), dt, Utilization(p.SideOf(zero)))
  }

  /** An update that advances the clock sets the slot and each side's rate, charges each side its
      own window, and leaves the parameters alone. */
  lemma UpdateCharges(p: State, slot: u64, m: Model, bps: u16, zero: bool, p': State)
    requires slot > p.lastUpdate && PairState.Update(p, slot, m, bps) == Ok(p')
    ensures 400 * (slot - p.lastUpdate) <= U64_MAX && WindowOf(p, 400 * (slot - p.lastUpdate), m, zero).Ok?
    ensures RateOf(p', zero) == WindowOf(p, 400 * (slot - p.lastUpdate), m, zero).value.0
    ensures Charged(p.SideOf(zero), p'.SideOf(zero), WindowOf(p, 400 * (slot - p.lastUpdate), m, zero).value.1, bps)
    ensures p'.lastUpdate == slot
    ensures p'.halfLife == p.halfLife && p'.swapFeeBps == p.swapFeeBps && p'.fixedCf == p.fixedCf
  {
    UpdateParts(p, slot, m, bps, zero);
    ChargedWindow(m, RateOf(p, zero), 400 * (slot - p.lastUpdate), p.SideOf(zero), bps,
                  RateOf(p', zero), p'.SideOf(zero));
  }

  lemma ChargedWindow(m: Model, rate: u64, elapsed: u64, s: Side, bps: u16, rate': u64, s': Side)
    requires Charge(m, rate, elapsed, s, bps) == Ok((rate', s'))
    ensures var window := CalculateRate(m, rate, elapsed, Utilization(s));
      window.Ok? && window.value.0 == rate' && Charged(s, s', window.value.1, bps)
  {
    ChargeIff(m, rate, elapsed, s, bps);
  }

  lemma UpdateParts(p: State, slot: u64, m: Model, bps: u16, zero: bool)
    requires slot > p.lastUpdate && PairState.Update(p, slot, m, bps).Ok?
    ensures 400 * (slot - p.lastUpdate) <= U64_MAX
    ensures var p' := PairState.Update(p, slot, m, bps).value;
      && Charge(m, RateOf(p, zero), 400 * (slot - p.lastUpdate), p.SideOf(zero), bps)
           == Ok((RateOf(p', zero), p'.SideOf(zero)))
      && p'.lastUpdate == slot
      && p'.halfLife == p.halfLife && p'.swapFeeBps == p.swapFeeBps && p'.fixedCf == p.fixedCf
  {
    UpdateIsAccrued(p, slot, m, bps);
    AccruedParts(p, slot, m, bps, zero);
  }

  /** Past its own slot an update is new averages on top of the accrual. */
  lemma UpdateIsAccrued(p: State, slot: u64, m: Model, bps: u16)
    requires slot > p.lastUpdate
    ensures var ema0 := UpdateEma(p.ema0, p.lastUpdate, p.Spot(true), p.halfLife, slot);
      var ema1 := UpdateEma(p.ema1, p.lastUpdate, p.Spot(false), p.halfLife, slot);
      var accrued, updated := Accrued(p, slot, m, bps), PairState.Update(p, slot, m, bps);
      && (updated.Ok? <==> ema0.Ok? && ema1.Ok? && accrued.Ok?)
      && (updated.Ok? ==> updated.value == accrued.value.(ema0 := ema0.value, ema1 := ema1.value))
  {
  }

  lemma AccruedParts(p: State, slot: u64, m: Model, bps: u16, zero: bool)
    requires slot > p.lastUpdate && Accrued(p, slot, m, bps).Ok?
    ensures 400 * (slot - p.lastUpdate) <= U64_MAX
    ensures var p' := Accrued(p, slot, m, bps).value;
      && Charge(m, RateOf(p, zero), 400 * (slot - p.lastUpdate), p.SideOf(zero), bps)
           == Ok((RateOf(p', zero), p'.SideOf(zero)))
      && p'.lastUpdate == slot
      && p'.halfLife == p.halfLife && p'.swapFeeBps == p.swapFeeBps && p'.fixedCf == p.fixedCf
  {
  }

  lemma AccruedIff(p: State, slot: u64, m: Model, bps: u16)
    requires slot > p.lastUpdate && 400 * (slot - p.lastUpdate) <= U64_MAX
    ensures var dt := 400 * (slot - p.lastUpdate);
      Accrued(p, slot, m, bps).Ok? <==>
        Charge(m, p.rate0, dt, p.side0, bps).Ok? && Charge(m, p.rate1, dt, p.side1, bps).Ok?
  {
  }

  /** Within one slot an update only lets the directional averages drop to the spot. */
  lemma SameSlotUpdate(p: State, slot: u64, m: Model, bps: u16)
    requires slot <= p.lastUpdate
    ensures PairState.Update(p, slot, m, bps).Ok?
    ensures var p' := PairState.Update(p, slot, m, bps).value;
      && p'.(ema0 := p.ema0, ema1 := p.ema1) == p
      && (forall zero: bool ::
            && p'.EmaOf(zero).symmetric == p.EmaOf(zero).symmetric
            && p'.EmaOf(zero).directional == Min(p.EmaOf(zero).directional, p.Spot(zero)))
  {
  }

  predicate ChargeFits(p: State, dt: u64, m: Model, bps: u16, zero: bool)
    requires WindowOf(p, dt, m, zero).Ok?
  {
    var i := InterestOf(p.SideOf(zero).debt, WindowOf(p, dt, m, zero).value.1);
    p.SideOf(zero).debt + i + FeeOn(i, bps) <= U64_MAX
  }

  /** On representable windows with a growth constant the update succeeds if and only if both
      debts still fit 64 bits afterwards. */
  lemma UpdateIff(p: State, slot: u64, m: Model, bps: u16, dt: u64)
    requires slot > p.lastUpdate && dt == 400 * (slot - p.lastUpdate) && m.expRate > 0
    requires RateBounds.Representable(m, dt)
    requires Average.Representable(p.lastUpdate, p.halfLife, slot) && Average.Representable(p.lastUpdate, 3_000, slot)
    ensures WindowOf(p, dt, m, true).Ok? && WindowOf(p, dt, m, false).Ok?
    ensures PairState.Update(p, slot, m, bps).Ok? <==> ChargeFits(p, dt, m, bps, true) && ChargeFits(p, dt, m, bps, false)
  {
    ChargeFitsIff(p, dt, m, bps, true);
    ChargeFitsIff(p, dt, m, bps, false);
    UpdateIffCharges(p, slot, m, bps);
  }

  lemma ChargeFitsIff(p: State, dt: u64, m: Model, bps: u16, zero: bool)
    requires dt > 0 && m.expRate > 0 && RateBounds.Representable(m, dt)
    ensures WindowOf(p, dt, m, zero).Ok?
    ensures Charge(m, RateOf(p, zero), dt, p.SideOf(zero), bps).Ok? <==> ChargeFits(p, dt, m, bps, zero)
  {
    var gd := RateMotion.CalculatedRateMoves(m, RateOf(p, zero), dt, Utilization(p.SideOf(zero)));
    ChargeIff(m, RateOf(p, zero), dt, p.SideOf(zero), bps);
  }

  lemma UpdateIffCharges(p: State, slot: u64, m: Model, bps: u16)
    requires slot > p.lastUpdate && 400 * (slot - p.lastUpdate) <= U64_MAX
    requires Average.Representable(p.lastUpdate, p.halfLife, slot) && Average.Representable(p.lastUpdate, 3_000, slot)
    ensures var dt := 400 * (slot - p.lastUpdate);
      PairState.Update(p, slot, m, bps).Ok? <==>
        && Charge(m, RateOf(p, true), dt, p.SideOf(true), bps).Ok?
        && Charge(m, RateOf(p, false), dt, p.SideOf(false), bps).Ok?
  {
    AveragesDefined(p.ema0, p.lastUpdate, p.Spot(true), p.halfLife, slot);
    AveragesDefined(p.ema1, p.lastUpdate, p.Spot(false), p.halfLife, slot);
    UpdateIsAccrued(p, slot, m, bps);
    AccruedIff(p, slot, m, bps);
  }

  lemma AveragesDefined(e: Ema, lastUpdate: u64, spot: u64, halfLife: u64, slot: u64)
    requires Average.Representable(lastUpdate, halfLife, slot) && Average.Representable(lastUpdate, 3_000, slot)
    ensures UpdateEma(e, lastUpdate, spot, halfLife, slot).Ok?
  {
    Average.EmaIsDefined(e.symmetric, lastUpdate, spot, halfLife, slot);
    Average.EmaIsDefined(Min(e.directional, spot), lastUpdate, spot, 3_000, slot);
  }
}
