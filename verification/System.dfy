/** Results that span the pair, the ledger, the curve and the liquidation handler. */
module System {
  import opened Words
  import opened Nonlinear
  import opened Kernels
  import opened RateModel
  import RateBounds
  import RateMotion
  import opened Accruals
  import opened VirtualReserves
  import opened BorrowLimit
  import opened Ledger
  import opened Books
  import opened PairState
  import opened Liquidations
  import opened Market

  /** Every update that advances the clock is an accrual of the pool, so the run theorems of
      Market apply to it. */
  lemma UpdateIsAccrual(
    p: State, slot: u64, m: Model, interestBps: u16, holdings0: seq<u128>, holdings1: seq<u128>) returns (a: Action)
    requires slot > p.lastUpdate && PairState.Update(p, slot, m, interestBps).Ok?
    ensures a.Accrual?
    ensures var p' := PairState.Update(p, slot, m, interestBps).value;
      Act(Pool(Book(p.side0, holdings0), Book(p.side1, holdings1)), a)
        == Ok(Pool(Book(p'.side0, holdings0), Book(p'.side1, holdings1)))
  {
    var elapsed := SlotsToMs(p.lastUpdate, slot).value;
    var integral0 := CalculateRate(m, p.rate0, elapsed, Utilization(p.side0)).value.1;
    var integral1 := CalculateRate(m, p.rate1, elapsed, Utilization(p.side1)).value.1;
    a := Accrual(integral0, integral1, interestBps);
  }

  /** Each rate answers to the utilisation of its own side at entry, and stays within bounds. */
  lemma UpdateRatesFollowUtilization(p: State, slot: u64, m: Model, interestBps: u16, zero: bool)
    requires slot > p.lastUpdate && PairState.Update(p, slot, m, interestBps).Ok?
    requires RateBounds.Representable(m, SlotsToMs(p.lastUpdate, slot).value)
    requires m.targetStart <= m.targetEnd && (m.maxRate > 0 ==> m.minRate <= m.maxRate)
    requires m.minRate <= RateOf(p, zero) && (m.maxRate > 0 ==> RateOf(p, zero) <= m.maxRate)
    ensures var before, after := RateOf(p, zero), RateOf(PairState.Update(p, slot, m, interestBps).value, zero);
      var util := Utilization(p.SideOf(zero));
      && m.minRate <= after && (m.maxRate > 0 ==> after <= m.maxRate)
      && (util > m.targetEnd ==> before <= after)
      && (util < m.targetStart ==> after <= before)
      && (m.targetStart <= util <= m.targetEnd ==> after == before)
  {
    var elapsed := SlotsToMs(p.lastUpdate, slot).value;
    RateBounds.RateMovesTheRightWay(m, RateOf(p, zero), elapsed, Utilization(p.SideOf(zero)));
  }

  /** How far each rate moves in an update, and in which direction: over the slots since the last
      one at 400 milliseconds each, at the utilisation of its own side at entry. */
  lemma UpdateMovesRates(p: State, slot: u64, m: Model, interestBps: u16, zero: bool, p': State, dt: u64)
    returns (gd: u64)
    requires slot > p.lastUpdate && PairState.Update(p, slot, m, interestBps) == Ok(p')
    requires dt == 400 * (slot - p.lastUpdate) && m.expRate > 0 && RateBounds.Representable(m, dt)
    ensures DecayFactor(m, dt) == Ok(gd)
    ensures RateMotion.RateMoves(m, Max(RateOf(p, zero), m.minRate), dt, Utilization(p.SideOf(zero)), gd,
                                 RateOf(p', zero))
  {
    UpdateCharges(p, slot, m, interestBps, zero, p');
    gd := RateInWindow(p, slot, m, zero, dt, RateOf(p', zero));
  }

  lemma RateInWindow(p: State, slot: u64, m: Model, zero: bool, dt: u64, rate': u64) returns (gd: u64)
    requires slot > p.lastUpdate && dt == 400 * (slot - p.lastUpdate)
    requires m.expRate > 0 && RateBounds.Representable(m, dt)
    requires WindowOf(p, dt, m, zero).Ok? && WindowOf(p, dt, m, zero).value.0 == rate'
    ensures DecayFactor(m, dt) == Ok(gd)
    ensures RateMotion.RateMoves(m, Max(RateOf(p, zero), m.minRate), dt, Utilization(p.SideOf(zero)), gd, rate')
  {
    gd := RateMotion.CalculatedRateMoves(m, RateOf(p, zero), dt, Utilization(p.SideOf(zero)));
  }

  /** The spot price of a token is the other reserve per unit of its own, rounded down. */
  lemma SpotIsReserveRatio(p: State, zero: bool)
    requires p.SideOf(zero).reserve > 0
    ensures var rc, rd := p.SideOf(zero).reserve, p.SideOf(!zero).reserve;
      && p.Spot(zero) * rc <= rd * NAD
      && (p.Spot(zero) < U64_MAX ==> rd * NAD < (p.Spot(zero) + 1) * rc)
  {
    var rc, rd := p.SideOf(zero).reserve, p.SideOf(!zero).reserve;
    FloorSpec(rd * NAD, rc);
    MulMono(p.Spot(zero), rd * NAD / rc, rc, rc);
  }

  /** As long as the symmetric average is not above the spot, a liquidation that is not cut
      short by the collateral at hand never lowers k. */
  lemma LiquidationBelowSpotKeepsK(p: State, zero: bool, mine: u128, slot: u64, t: Terms)
    requires p.EmaPrice(zero, slot) == Ok(t.ema) && 0 < t.ema <= p.Spot(zero)
    requires mine <= p.SideOf(!zero).shares
    requires p.SideOf(!zero).cash + p.SideOf(!zero).debt <= p.SideOf(!zero).reserve
    requires Product(p.SideOf(zero).reserve, p.SideOf(!zero).reserve) * NAD <= U128_MAX
    requires Liquidation(p.SideOf(!zero), p.SideOf(zero), mine, t).Ok?
    requires PlanOf(p.SideOf(!zero), p.SideOf(zero), mine, t).Some?
    requires var Plan(x, y, w) := PlanOf(p.SideOf(!zero), p.SideOf(zero), mine, t).value;
      w < y && Uncut(x, y, w, t.collateral)
    ensures var l := Liquidation(p.SideOf(!zero), p.SideOf(zero), mine, t).value;
      p.K() <= p.WithSide(!zero, l.debtSide).WithSide(zero, l.collateralSide).K()
  {
    var debtSide, collateralSide := p.SideOf(!zero), p.SideOf(zero);
    LiquidationNeedsLiquidity(debtSide, collateralSide, mine, t);
    SpotIsReserveRatio(p, zero);
    MulMono(t.ema, p.Spot(zero), collateralSide.reserve, collateralSide.reserve);
    NotAboveSpotCovers(debtSide, collateralSide, mine, t);
    LiquidationKeepsKIff(debtSide, collateralSide, mine, t);
    var l := Liquidation(debtSide, collateralSide, mine, t).value;
    KOfSides(p, zero);
    KOfSides(p.WithSide(!zero, l.debtSide).WithSide(zero, l.collateralSide), zero);
  }

  lemma KOfSides(p: State, zero: bool)
    ensures p.K() == p.SideOf(zero).reserve * p.SideOf(!zero).reserve
  {
  }

  /** Over any run utilisation stays at most one on both sides. */
  lemma UtilizationOverRuns(p: Pool, actions: seq<Action>, zero: bool)
    requires BothBalanced(p) && AllAdmissible(p, actions)
    ensures Utilization(Play(p, actions).BookOf(zero).side) <= NAD
  {
    PlayKeepsBalance(p, actions);
    UtilizationAtMostOne(Play(p, actions).BookOf(zero).side);
  }

  /** A position that owes no more than its borrow limit cannot be liquidated at the same
      reserves and prices, once the limit is at least twenty units or the five percent buffer is
      worth a whole unit of debt. The handler values the collateral at the symmetric average
      alone, the limit at the lower of the two averages. */
  lemma WithinLimitCannotBeLiquidated(
    debtSide: Side, collateralSide: Side, mine: u128, collateral: u64,
    ema: u64, directional: u64, fixedCf: Option<u16>,
    limit: u64, maxCf: u16, cf: u16, value: u64, owed: u64)
    requires ValidFixedCf(fixedCf)
    requires Comparable(collateralSide.reserve, debtSide.reserve, PessimisticPrice(ema, directional), ema)
    requires PessimisticMaxDebt(collateral, ema, directional,
                                collateralSide.reserve, debtSide.reserve, debtSide.debt, fixedCf)
          == Ok((limit, maxCf, cf))
    requires ImpactValue(collateralSide.reserve, debtSide.reserve, ema, directional, collateral) == Ok(value)
    requires DebtOf(mine, debtSide.debt, debtSide.shares) == Ok(owed) && 0 < owed <= limit
    requires limit >= 20 || value * (cf - maxCf) >= BPS
    ensures Liquidation(debtSide, collateralSide, mine, Terms(collateral, cf, ema, directional, fixedCf)).Err?
  {
    WithinLimitIsSafe(collateralSide.reserve, debtSide.reserve, collateral, ema, directional, debtSide.debt, fixedCf,
                      limit, maxCf, cf, value, owed);
    var t := Terms(collateral, cf, ema, directional, fixedCf);
    if Liquidation(debtSide, collateralSide, mine, t).Ok? {
      LiquidationNeedsTest(debtSide, collateralSide, mine, t);
    }
  }

  lemma WithinLimitIsSafe(
    rc: u64, rd: u64, collateral: u64, ema: u64, directional: u64, totalDebt: u64, fixedCf: Option<u16>,
    limit: u64, maxCf: u16, cf: u16, value: u64, owed: u64)
    requires ValidFixedCf(fixedCf) && Comparable(rc, rd, PessimisticPrice(ema, directional), ema)
    requires PessimisticMaxDebt(collateral, ema, directional, rc, rd, totalDebt, fixedCf) == Ok((limit, maxCf, cf))
    requires ImpactValue(rc, rd, ema, directional, collateral) == Ok(value)
    requires 0 < owed <= limit && (limit >= 20 || value * (cf - maxCf) >= BPS)
    ensures HandlerLiquidatable(owed, collateral, rc, rd, ema, cf) != Ok(true)
  {
    LimitParts(collateral, ema, directional, rc, rd, totalDebt, fixedCf);
    FullBorrowIsSafeIff(collateral, ema, directional, rc, rd, totalDebt, fixedCf);
    FullBorrowOfTwentyIsSafe(collateral, ema, directional, rc, rd, totalDebt, fixedCf);
    OwingLessIsSafe(owed, limit, collateral, rc, rd, ema, directional, cf);
    SafeInViewIsSafeInHandler(owed, collateral, rc, rd, ema, directional, cf);
  }

  lemma OwingLessIsSafe(owed: u64, limit: u64, collateral: u64, rc: u64, rd: u64, ema: u64, directional: u64, cf: u16)
    requires owed <= limit && !ViewLiquidatable(limit, collateral, rc, rd, ema, directional, cf) && limit > 0
    ensures !ViewLiquidatable(owed, collateral, rc, rd, ema, directional, cf)
  {
  }

  /** The handler liquidates only what its own test admits. */
  lemma LiquidationNeedsTest(debtSide: Side, collateralSide: Side, mine: u128, t: Terms)
    requires Liquidation(debtSide, collateralSide, mine, t).Ok?
    ensures DebtOf(mine, debtSide.debt, debtSide.shares).Ok?
    ensures HandlerLiquidatable(DebtOf(mine, debtSide.debt, debtSide.shares).value, t.collateral,
                                collateralSide.reserve, debtSide.reserve, t.ema, t.cf) == Ok(true)
  {
  }
}
