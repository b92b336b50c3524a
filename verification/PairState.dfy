/** The pair as a value: prices, rates and both token sides, and what one accrual step does. */
module PairState {
  import opened Words
  import opened Nonlinear
  import opened Kernels
  import opened Average
  import opened RateModel
  import opened Ledger
  import opened Fairness
  import opened Books
  import opened BorrowLimit

  datatype Ema = Ema(symmetric: u64, directional: u64)

  /** numerator / denominator in NAD, zero for an empty side, clamped to 64 bits. */
  function SpotPrice(denominator: u64, numerator: u64): u64 {
    if denominator == 0 then 0
    else
      FloorAtLeast(0, numerator * NAD, denominator);
      Min(numerator * NAD / denominator, U64_MAX)
  }

  function Utilization(s: Side): u64 {
    SpotPrice(s.reserve, s.debt)
  }

  datatype State = State(
    side0: Side, side1: Side, ema0: Ema, ema1: Ema, lastUpdate: u64,
    rate0: u64, rate1: u64, halfLife: u64, swapFeeBps: u16, fixedCf: Option<u16>)
  {
    function SideOf(zero: bool): Side {
      if zero then side0 else side1
    }

    function WithSide(zero: bool, s: Side): State {
      if zero then this.(side0 := s) else this.(side1 := s)
    }

    function Spot(zero: bool): u64 {
      if zero then SpotPrice(side0.reserve, side1.reserve) else SpotPrice(side1.reserve, side0.reserve)
    }

    function EmaOf(zero: bool): Ema {
      if zero then ema0 else ema1
    }

    function K(): nat {
      MulMono(0, side0.reserve, 0, side1.reserve);
      side0.reserve * side1.reserve
    }

    /** The symmetric average read between updates. */
    function EmaPrice(zero: bool, slot: u64): Result<u64> {
      if SideOf(zero).reserve == 0 then Ok(0)
      else ComputeEma(EmaOf(zero).symmetric, lastUpdate, Spot(zero), halfLife, slot)
    }

    function DirectionalPrice(zero: bool, slot: u64): Result<u64> {
      if SideOf(zero).reserve == 0 then Ok(0)
      else ComputeEma(EmaOf(zero).directional, lastUpdate, Spot(zero), DIRECTIONAL_EMA_HALF_LIFE_MS, slot)
    }

    /** Borrow limit and factors for collateral of one token, borrowing the other. */
    function MaxDebtAndCf(zero: bool, collateral: u64, slot: u64): Result<(u64, u16, u16)> {
      var ema :- EmaPrice(zero, slot);
      var directional :- DirectionalPrice(zero, slot);
      PessimisticMaxDebt(collateral, ema, directional,
                         SideOf(zero).reserve, SideOf(!zero).reserve, SideOf(!zero).debt, fixedCf)
    }
  }

  // ---------------------------------------------------------------- one price

  /** What an update at `slot` does to one price's averages, for the spot read at entry: the
      directional average drops to the spot at once, then both blend, then it is clamped. */
  function UpdateEma(e: Ema, lastUpdate: u64, spot: u64, halfLife: u64, slot: u64): Result<Ema> {
    var dropped: u64 := Min(e.directional, spot);
    if slot > lastUpdate then
      var symmetric :- ComputeEma(e.symmetric, lastUpdate, spot, halfLife, slot);
      var blended :- ComputeEma(dropped, lastUpdate, spot, DIRECTIONAL_EMA_HALF_LIFE_MS, slot);
      Ok(Ema(symmetric, if spot < blended then spot else blended))
    else
      Ok(e.(directional := dropped))
  }

  /** The directional average ends between the lower of its old value and the spot, and the
      spot; so a drop shows at once, a rise only gradually, and the clamp changes nothing. */
  lemma DirectionalTracksDrops(e: Ema, lastUpdate: u64, spot: u64, halfLife: u64, slot: u64)
    requires UpdateEma(e, lastUpdate, spot, halfLife, slot).Ok?
    ensures var e' := UpdateEma(e, lastUpdate, spot, halfLife, slot).value;
      && Min(e.directional, spot) <= e'.directional <= spot
      && (spot <= e.directional ==> e'.directional == spot)
      && Min(e.symmetric, spot) <= e'.symmetric <= Max(e.symmetric, spot)
      && (slot > lastUpdate ==>
            ComputeEma(Min(e.directional, spot), lastUpdate, spot, DIRECTIONAL_EMA_HALF_LIFE_MS, slot)
              == Ok(e'.directional))
  {
    EmaStaysInHull(e.symmetric, lastUpdate, spot, halfLife, slot);
    EmaStaysInHull(Min(e.directional, spot), lastUpdate, spot, DIRECTIONAL_EMA_HALF_LIFE_MS, slot);
  }

  datatype Observation = Observation(slot: u64, spot: u64)

  /** A run of updates of one price; the last update only moves forward. */
  function RunEma(e: Ema, lastUpdate: u64, halfLife: u64, seen: seq<Observation>): Result<Ema>
    decreases |seen|
  {
    if seen == [] then Ok(e)
    else
      var next :- UpdateEma(e, lastUpdate, seen[0].spot, halfLife, seen[0].slot);
      RunEma(next, Max(lastUpdate, seen[0].slot), halfLife, seen[1..])
  }

  /** Over any run both averages stay in the hull of their seeds and the spots observed. */
  lemma {:induction false} AveragesStayInHull(
    e: Ema, lastUpdate: u64, halfLife: u64, seen: seq<Observation>, low: nat, high: nat)
    requires low <= e.symmetric <= high && low <= e.directional <= high
    requires forall o <- seen :: low <= o.spot <= high
    requires RunEma(e, lastUpdate, halfLife, seen).Ok?
    ensures var end := RunEma(e, lastUpdate, halfLife, seen).value;
      low <= end.symmetric <= high && low <= end.directional <= high
    decreases |seen|
  {
    if seen != [] {
      assert seen[0] in seen;
      DirectionalTracksDrops(e, lastUpdate, seen[0].spot, halfLife, seen[0].slot);
      var next := UpdateEma(e, lastUpdate, seen[0].spot, halfLife, seen[0].slot).value;
      AveragesStayInHull(next, Max(lastUpdate, seen[0].slot), halfLife, seen[1..], low, high);
    }
  }

  /** After any non-empty run the directional average is at most the last spot observed. */
  lemma {:induction false} DirectionalBelowLastSpot(e: Ema, lastUpdate: u64, halfLife: u64, seen: seq<Observation>)
    requires seen != [] && RunEma(e, lastUpdate, halfLife, seen).Ok?
    ensures RunEma(e, lastUpdate, halfLife, seen).value.directional <= seen[|seen| - 1].spot
    decreases |seen|
  {
    DirectionalTracksDrops(e, lastUpdate, seen[0].spot, halfLife, seen[0].slot);
    if |seen| > 1 {
      var next := UpdateEma(e, lastUpdate, seen[0].spot, halfLife, seen[0].slot).value;
      DirectionalBelowLastSpot(next, Max(lastUpdate, seen[0].slot), halfLife, seen[1..]);
    }
  }

  // ---------------------------------------------------------------- the pair

  /** One side of the accrual: the new rate at the utilisation at entry, and the side after
      the interest of the window. */
  function Charge(m: Model, rate: u64, elapsed: u64, s: Side, interestBps: u16): Result<(u64, Side)> {
    var window :- CalculateRate(m, rate, elapsed, Utilization(s));
    var side :- AccrueSide(s, window.1, interestBps);
    Ok((window.0, side))
  }

  /** Rates and interest of both sides for the window that ends at `slot`. */
  function Accrued(p: State, slot: u64, m: Model, interestBps: u16): Result<State> {
    var elapsed :- OkOr(SlotsToMs(p.lastUpdate, slot), Panic);
    var c0 :- Charge(m, p.rate0, elapsed, p.side0, interestBps);
    var c1 :- Charge(m, p.rate1, elapsed, p.side1, interestBps);
    Ok(p.(side0 := c0.1, side1 := c1.1, lastUpdate := slot, rate0 := c0.0, rate1 := c1.0))
  }

  /** Pair::update at a slot: averages from the spots at entry, rates from the utilisation at
      entry, then interest on both sides. Any failure reverts everything. */
  function Update(p: State, slot: u64, m: Model, interestBps: u16): Result<State> {
    if slot <= p.lastUpdate then
      Ok(p.(ema0 := p.ema0.(directional := Min(p.ema0.directional, p.Spot(true))),
            ema1 := p.ema1.(directional := Min(p.ema1.directional, p.Spot(false)))))
    else
      var ema0 :- UpdateEma(p.ema0, p.lastUpdate, p.Spot(true), p.halfLife, slot);
      var ema1 :- UpdateEma(p.ema1, p.lastUpdate, p.Spot(false), p.halfLife, slot);
      var accrued :- Accrued(p, slot, m, interestBps);
      Ok(accrued.(ema0 := ema0, ema1 := ema1))
  }

  /** Debt within the reserve keeps utilisation at most one. */
  lemma UtilizationAtMostOne(s: Side)
    requires s.debt <= s.reserve
    ensures Utilization(s) <= NAD
  {
    if s.reserve > 0 {
      FloorMono(s.debt * NAD, s.reserve * NAD, s.reserve);
      ProductQuotient(s.reserve, NAD);
    }
  }

  lemma ChargeValue(m: Model, rate: u64, elapsed: u64, s: Side, interestBps: u16)
    requires Charge(m, rate, elapsed, s, interestBps).Ok?
    ensures var s' := Charge(m, rate, elapsed, s, interestBps).value.1;
      && s.reserve <= s'.reserve && s.debt <= s'.debt && s'.shares == s.shares && s'.cash <= s.cash
      && (s'.reserve < U64_MAX ==> Gap(s') == Gap(s))
  {
    AccrueValue(s, CalculateRate(m, rate, elapsed, Utilization(s)).value.1, interestBps);
  }

  /** An update never lowers k, never lowers a reserve or a debt, never touches shares, and
      keeps the gap between reserve and cash plus debt on both sides unless a reserve saturates. */
  lemma UpdateKeepsBalance(p: State, slot: u64, m: Model, interestBps: u16)
    requires Update(p, slot, m, interestBps).Ok?
    ensures var p' := Update(p, slot, m, interestBps).value;
      && p.K() <= p'.K()
      && (forall zero: bool ::
            && p.SideOf(zero).reserve <= p'.SideOf(zero).reserve
            && p.SideOf(zero).debt <= p'.SideOf(zero).debt
            && p'.SideOf(zero).shares == p.SideOf(zero).shares
            && (p'.SideOf(zero).reserve < U64_MAX ==> Gap(p'.SideOf(zero)) == Gap(p.SideOf(zero))))
  {
    if slot > p.lastUpdate {
      var elapsed := SlotsToMs(p.lastUpdate, slot).value;
      ChargeValue(m, p.rate0, elapsed, p.side0, interestBps);
      ChargeValue(m, p.rate1, elapsed, p.side1, interestBps);
      var p' := Update(p, slot, m, interestBps).value;
      MulMono(p.side0.reserve, p'.side0.reserve, p.side1.reserve, p'.side1.reserve);
    }
  }

  /** Reading a price in the slot of the update returns the stored average, and its minimum
      with the directional one is at most the spot the update saw. */
  lemma PricesAfterUpdate(p: State, slot: u64, m: Model, interestBps: u16, zero: bool)
    requires Update(p, slot, m, interestBps).Ok? && slot >= p.lastUpdate
    ensures var p' := Update(p, slot, m, interestBps).value;
      && p'.lastUpdate == slot
      && (p'.SideOf(zero).reserve > 0 ==>
            && p'.EmaPrice(zero, slot) == Ok(p'.EmaOf(zero).symmetric)
            && p'.DirectionalPrice(zero, slot) == Ok(p'.EmaOf(zero).directional))
      && p'.EmaOf(zero).directional <= p.Spot(zero)
  {
    DirectionalTracksDrops(p.EmaOf(zero), p.lastUpdate, p.Spot(zero), p.halfLife, slot);
  }
}
