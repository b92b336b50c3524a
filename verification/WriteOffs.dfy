/** handle_liquidate pinned from outside: exactly when it succeeds, in terms of the position, the
    pool and the virtual reserves, and every amount of its outcome. */
module WriteOffs {
  import opened Words
  import opened Nonlinear
  import opened Kernels
  import opened Curve
  import opened VirtualReserves
  import opened BorrowLimit
  import LimitValue
  import opened Ledger
  import opened Fairness
  import opened Books
  import opened Bystanders
  import opened Liquidations

  // ---------------------------------------------------------------- the debt side

  /** The whole units of debt the written-off shares carry. */
  function DebtOff(lent: Side, shares: nat): int
    requires lent.shares > 0
  {
    shares * lent.debt / lent.shares
  }

  /** The debt is written off the reserve and off the total, and the shares with it. */
  predicate WrittenOff(lent: Side, lent': Side, mine: int, mine': int, shares: int, w: int) {
    && lent'.reserve == lent.reserve - w
    && lent'.cash == lent.cash
    && lent'.debt == lent.debt - w
    && lent'.shares == lent.shares - shares
    && mine' == mine - shares
  }

  lemma LiquidateSideIff(lent: Side, mine: u128, insolvent: bool)
    requires 0 < mine <= lent.shares && lent.debt <= lent.reserve && DebtOf(mine, lent.debt, lent.shares).Ok?
    ensures LiquidateSide(lent, mine, insolvent).Ok? <==> insolvent || mine * 5_000 + 9_999 <= U128_MAX
    ensures LiquidateSide(lent, mine, insolvent).Ok? ==>
      var (w, lent', mine') := LiquidateSide(lent, mine, insolvent).value;
      && w == DebtOff(lent, SharesOff(mine, insolvent))
      && WrittenOff(lent, lent', mine, mine', SharesOff(mine, insolvent), w)
  {
    SharesOffIff(mine, insolvent);
    if LiquidationShares(mine, insolvent).Ok? {
      var shares := LiquidationShares(mine, insolvent).value;
      MulMono(shares, mine, lent.debt, lent.debt);
      PartOfDebt(shares, lent.debt, lent.shares);
      LiquidateSideRuns(lent, mine, insolvent, shares);
      LiquidationValue(lent, mine, insolvent);
      WrittenOffIsFloor(lent, mine, insolvent);
    }
  }

  lemma LiquidateSideRuns(lent: Side, mine: u128, insolvent: bool, shares: u128)
    requires 0 < mine <= lent.shares && DebtOf(mine, lent.debt, lent.shares).Ok?
    requires LiquidationShares(mine, insolvent) == Ok(shares) && shares <= mine
    requires 0 <= shares * lent.debt <= mine * lent.debt
    ensures LiquidateSide(lent, mine, insolvent).Ok?
    ensures LiquidateSide(lent, mine, insolvent).value.2 == mine - shares
  {
  }

  /** A position's debt can be read if and only if its product with the total fits. */
  lemma ReadingIff(mine: u128, lent: Side)
    requires 0 < mine <= lent.shares
    ensures DebtOf(mine, lent.debt, lent.shares).Ok? <==> mine * lent.debt + lent.shares - 1 <= U128_MAX
    ensures DebtOf(mine, lent.debt, lent.shares).Ok? ==> DebtOf(mine, lent.debt, lent.shares).value == Owed(mine, lent)
  {
    MulMono(0, mine, 0, lent.debt);
    DebtOfValue(mine, lent.debt, lent.shares);
  }

  // ---------------------------------------------------------------- the collateral side

  /** The factor locked in for the rest can be computed. */
  predicate FactorDefined(rest: u64, t: Terms, posted: Side, lent: Side) {
    || rest == 0 || t.ema == 0 || t.directional == 0
    || (var reserves := Construct(posted.reserve, lent.reserve, t.ema, t.directional);
        && reserves.Ok?
        && (t.fixedCf.Some? || lent.reserve == 0
            || LimitValue.DebtQuoted(reserves.value.0, reserves.value.1, rest, lent.debt)))
  }

  lemma FactorIff(rest: u64, t: Terms, posted: Side, lent: Side)
    ensures PessimisticMaxDebt(rest, t.ema, t.directional, posted.reserve, lent.reserve, lent.debt, t.fixedCf).Ok?
       <==> FactorDefined(rest, t, posted, lent)
  {
    if rest == 0 || t.ema == 0 || t.directional == 0 {
      LimitValue.NothingToBorrowOn(rest, t.ema, t.directional, posted.reserve, lent.reserve, lent.debt, t.fixedCf);
    } else {
      LimitValue.LimitDefinedIff(rest, t.ema, t.directional, posted.reserve, lent.reserve, lent.debt, t.fixedCf);
    }
  }

  // ---------------------------------------------------------------- the whole liquidation

  /** Selling all the collateral at the virtual reserves does not pay for the debt. */
  predicate Insolvent(lent: Side, mine: nat, collateral: nat, x: nat, y: nat)
    requires x + collateral > 0
  {
    Owed(mine, lent) > OutFloor(x, y, collateral)
  }

  /** The position's debt can be read, and is at or above its liquidation limit. */
  predicate Liquidatable(lent: Side, mine: nat, t: Terms, x: nat, y: nat) {
    && 0 < mine <= lent.shares && mine * lent.debt + lent.shares - 1 <= U128_MAX
    && x + t.collateral > 0
    && OutFloor(x, y, t.collateral) * t.cf < (Owed(mine, lent) + 1) * 10_000
  }

  function PlannedDebt(lent: Side, mine: nat, collateral: nat, x: nat, y: nat): int
    requires x + collateral > 0 && lent.shares > 0
  {
    DebtOff(lent, SharesOff(mine, Insolvent(lent, mine, collateral, x, y)))
  }

  /** The debt w can be quoted, the factor for the rest of the collateral can be computed, and what
      is taken fits the reserve. */
  predicate QuoteSettles(lent: Side, posted: Side, t: Terms, x: nat, y: nat, w: int) {
    && 0 <= w < y && InCeil(x, y, w) <= U64_MAX
    && var base := InCeil(x, y, w);
    && 0 <= Seized(base, t.collateral) <= t.collateral
    && FactorDefined(t.collateral - Seized(base, t.collateral), t, posted, lent)
    && posted.reserve + (Seized(base, t.collateral) - CallersPart(base, t.collateral)) <= U64_MAX
  }

  /** An insolvent position goes whole, otherwise its shares can be halved; and the debt they carry
      settles. */
  predicate Settles(lent: Side, posted: Side, mine: nat, t: Terms, x: nat, y: nat)
    requires x + t.collateral > 0 && lent.shares > 0
  {
    && (Insolvent(lent, mine, t.collateral, x, y) || mine * 5_000 + 9_999 <= U128_MAX)
    && QuoteSettles(lent, posted, t, x, y, PlannedDebt(lent, mine, t.collateral, x, y))
  }

  /** A liquidation succeeds if and only if the position can be liquidated and the outcome can be
      settled, insolvent positions included. */
  lemma LiquidationIff(lent: Side, posted: Side, mine: u128, t: Terms, x: u64, y: u64)
    requires Construct(posted.reserve, lent.reserve, t.ema, t.ema) == Ok((x, y))
    requires mine <= lent.shares && lent.debt <= lent.reserve
    ensures Liquidation(lent, posted, mine, t).Ok?
       <==> Liquidatable(lent, mine, t, x, y) && Settles(lent, posted, mine, t, x, y)
  {
    if mine > 0 {
      ReadingIff(mine, lent);
      AmountOutValue(x, y, t.collateral);
      if Liquidatable(lent, mine, t, x, y) {
        var value := OutFloor(x, y, t.collateral);
        FloorAtLeast(Owed(mine, lent) + 1, value * t.cf, 10_000);
        SettledIff(lent, posted, mine, t, x, y, Owed(mine, lent), value);
      } else if DebtOf(mine, lent.debt, lent.shares).Ok? && x + t.collateral > 0 {
        FloorAtLeast(Owed(mine, lent) + 1, OutFloor(x, y, t.collateral) * t.cf, 10_000);
        AboveLimitOnly(lent, posted, mine, t, x, y, Owed(mine, lent), OutFloor(x, y, t.collateral));
      }
    }
  }

  lemma AboveLimitOnly(lent: Side, posted: Side, mine: u128, t: Terms, x: u64, y: u64, owed: u64, value: u64)
    requires Construct(posted.reserve, lent.reserve, t.ema, t.ema) == Ok((x, y))
    requires DebtOf(mine, lent.debt, lent.shares) == Ok(owed) && AmountOut(x, y, t.collateral) == Ok(value)
    requires owed < ApplyCf(value, t.cf)
    ensures Liquidation(lent, posted, mine, t).Err?
  {
  }

  predicate Tested(lent: Side, posted: Side, mine: u128, t: Terms, x: u64, y: u64, owed: u64, value: u64) {
    && mine > 0 && Construct(posted.reserve, lent.reserve, t.ema, t.ema) == Ok((x, y))
    && DebtOf(mine, lent.debt, lent.shares) == Ok(owed) && AmountOut(x, y, t.collateral) == Ok(value)
    && ApplyCf(value, t.cf) <= owed
  }

  lemma Unhalved(lent: Side, posted: Side, mine: u128, t: Terms, x: u64, y: u64, owed: u64, value: u64)
    requires Tested(lent, posted, mine, t, x, y, owed, value) && LiquidateSide(lent, mine, owed > value).Err?
    ensures Liquidation(lent, posted, mine, t).Err?
  {
  }

  lemma Unquoted(
    lent: Side, posted: Side, mine: u128, t: Terms, x: u64, y: u64, owed: u64, value: u64, written: (u64, Side, u128))
    requires Tested(lent, posted, mine, t, x, y, owed, value)
    requires LiquidateSide(lent, mine, owed > value) == Ok(written) && AmountIn(x, y, written.0).Err?
    ensures Liquidation(lent, posted, mine, t).Err?
  {
  }

  lemma LastSteps(
    lent: Side, posted: Side, mine: u128, t: Terms, x: u64, y: u64, owed: u64, value: u64, written: (u64, Side, u128),
    base: u64, seized: u64, incentive: u64)
    requires Tested(lent, posted, mine, t, x, y, owed, value)
    requires LiquidateSide(lent, mine, owed > value) == Ok(written) && AmountIn(x, y, written.0) == Ok(base)
    requires Seizure(base, t.collateral) == Ok((seized, incentive)) && incentive <= seized <= t.collateral
    ensures var l := Liquidation(lent, posted, mine, t);
      var locked := PessimisticMaxDebt(t.collateral - seized, t.ema, t.directional,
                                       posted.reserve, lent.reserve, lent.debt, t.fixedCf);
      && (l.Ok? <==> locked.Ok? && posted.reserve + (seized - incentive) <= U64_MAX)
      && (l.Ok? ==>
            && (l.value.writtenOff, l.value.debtSide, l.value.mine) == written
            && (l.value.seized, l.value.incentive, l.value.cf) == (seized, incentive, locked.value.2)
            && l.value.collateralSide
                 == posted.(reserve := posted.reserve + (seized - incentive),
                            cash := Min(posted.cash + (seized - incentive), U64_MAX)))
  {
  }

  /** Past the test, success is that of the steps that follow. */
  lemma SettledIff(lent: Side, posted: Side, mine: u128, t: Terms, x: u64, y: u64, owed: u64, value: u64)
    requires Tested(lent, posted, mine, t, x, y, owed, value)
    requires mine <= lent.shares && lent.debt <= lent.reserve && x + t.collateral > 0
    requires owed == Owed(mine, lent) && value == OutFloor(x, y, t.collateral)
    ensures Liquidation(lent, posted, mine, t).Ok? <==> Settles(lent, posted, mine, t, x, y)
  {
    var insolvent := owed > value;
    LiquidateSideIff(lent, mine, insolvent);
    if insolvent || mine * 5_000 + 9_999 <= U128_MAX {
      QuotedIff(lent, posted, mine, t, x, y, owed, value, LiquidateSide(lent, mine, insolvent).value);
    } else {
      Unhalved(lent, posted, mine, t, x, y, owed, value);
    }
  }

  lemma QuotedIff(
    lent: Side, posted: Side, mine: u128, t: Terms, x: u64, y: u64, owed: u64, value: u64, written: (u64, Side, u128))
    requires Tested(lent, posted, mine, t, x, y, owed, value)
    requires LiquidateSide(lent, mine, owed > value) == Ok(written)
    ensures Liquidation(lent, posted, mine, t).Ok? <==> QuoteSettles(lent, posted, t, x, y, written.0)
  {
    AmountInValue(x, y, written.0);
    if AmountIn(x, y, written.0).Ok? {
      var base := InCeil(x, y, written.0);
      SeizureIs(base, t.collateral);
      FactorIff(t.collateral - Seized(base, t.collateral), t, posted, lent);
      LastSteps(lent, posted, mine, t, x, y, owed, value, written, base,
                Seized(base, t.collateral), CallersPart(base, t.collateral));
    } else {
      Unquoted(lent, posted, mine, t, x, y, owed, value, written);
    }
  }

  /** Without virtual reserves there is no liquidation. */
  lemma NoReservesNoLiquidation(lent: Side, posted: Side, mine: u128, t: Terms)
    requires Construct(posted.reserve, lent.reserve, t.ema, t.ema).Err?
    ensures Liquidation(lent, posted, mine, t).Err?
  {
  }

  /** Every amount of a successful liquidation. */
  predicate Outcome(lent: Side, posted: Side, mine: nat, t: Terms, x: nat, y: nat, l: Liquidated)
    requires Liquidatable(lent, mine, t, x, y) && Settles(lent, posted, mine, t, x, y)
  {
    var w := PlannedDebt(lent, mine, t.collateral, x, y);
    var base := InCeil(x, y, w);
    var net := Seized(base, t.collateral) - CallersPart(base, t.collateral);
    && l.writtenOff == w
    && WrittenOff(lent, l.debtSide, mine, l.mine, SharesOff(mine, Insolvent(lent, mine, t.collateral, x, y)), w)
    && l.seized == Seized(base, t.collateral) && l.incentive == CallersPart(base, t.collateral)
    && l.collateralSide.reserve == posted.reserve + net
    && l.collateralSide.cash == Min(posted.cash + net, U64_MAX)
    && l.collateralSide.debt == posted.debt && l.collateralSide.shares == posted.shares
    && PessimisticMaxDebt(t.collateral - Seized(base, t.collateral), t.ema, t.directional,
                          posted.reserve, lent.reserve, lent.debt, t.fixedCf).Ok?
    && PessimisticMaxDebt(t.collateral - Seized(base, t.collateral), t.ema, t.directional,
                          posted.reserve, lent.reserve, lent.debt, t.fixedCf).value.2 == l.cf
  }

  lemma LiquidationOutcome(lent: Side, posted: Side, mine: u128, t: Terms, x: u64, y: u64, l: Liquidated)
    requires Construct(posted.reserve, lent.reserve, t.ema, t.ema) == Ok((x, y))
    requires mine <= lent.shares && lent.debt <= lent.reserve && Liquidation(lent, posted, mine, t) == Ok(l)
    ensures Liquidatable(lent, mine, t, x, y) && Settles(lent, posted, mine, t, x, y)
    ensures Outcome(lent, posted, mine, t, x, y, l)
  {
    LiquidationIff(lent, posted, mine, t, x, y);
    ReadingIff(mine, lent);
    AmountOutValue(x, y, t.collateral);
    var owed, value := Owed(mine, lent), OutFloor(x, y, t.collateral);
    FloorAtLeast(owed + 1, value * t.cf, 10_000);
    OutcomeOfSteps(lent, posted, mine, t, x, y, owed, value, l);
  }

  lemma OutcomeOfSteps(
    lent: Side, posted: Side, mine: u128, t: Terms, x: u64, y: u64, owed: u64, value: u64, l: Liquidated)
    requires Tested(lent, posted, mine, t, x, y, owed, value) && lent.debt <= lent.reserve
    requires Liquidatable(lent, mine, t, x, y) && Settles(lent, posted, mine, t, x, y)
    requires owed == Owed(mine, lent) && value == OutFloor(x, y, t.collateral)
    requires Liquidation(lent, posted, mine, t) == Ok(l)
    ensures Outcome(lent, posted, mine, t, x, y, l)
  {
    var insolvent := owed > value;
    LiquidateSideIff(lent, mine, insolvent);
    var written := LiquidateSide(lent, mine, insolvent).value;
    AmountInValue(x, y, written.0);
    var base := InCeil(x, y, written.0);
    SeizureIs(base, t.collateral);
    LastSteps(lent, posted, mine, t, x, y, owed, value, written, base,
              Seized(base, t.collateral), CallersPart(base, t.collateral));
  }

  /** Where selling all the collateral does not pay for the debt, a liquidation writes off every
      share of the position and all the debt they carry; otherwise half the shares, rounded up. */
  lemma BadDebtGoesWhole(lent: Side, posted: Side, mine: u128, t: Terms, x: u64, y: u64, l: Liquidated)
    requires Construct(posted.reserve, lent.reserve, t.ema, t.ema) == Ok((x, y))
    requires mine <= lent.shares && lent.debt <= lent.reserve && Liquidation(lent, posted, mine, t) == Ok(l)
    ensures mine > 0 && x + t.collateral > 0
    ensures Owed(mine, lent) > OutFloor(x, y, t.collateral) ==>
      && l.mine == 0 && l.debtSide.shares == lent.shares - mine
      && l.debtSide.debt == lent.debt - mine * lent.debt / lent.shares
    ensures Owed(mine, lent) <= OutFloor(x, y, t.collateral) ==>
      l.mine == mine / 2 && l.debtSide.shares == lent.shares - (mine + 1) / 2
  {
    LiquidationOutcome(lent, posted, mine, t, x, y, l);
  }

  /** An insolvent position: collateral worth 90,909 against a debt of 150,000. Everything is
      seized, all shares and all debt go, and the pool bears the difference. */
  lemma BadDebtIsWrittenOff(r: u64, price: u64)
    requires r == 1_000_000 && price == 1_000_000_000
    ensures Liquidation(Side(r, 850_000, 150_000, 150_000_000_000), Side(r, r, 0, 0), 150_000_000_000,
                        Terms(100_000, 8_500, price, price, Some(8_500)))
         == Ok(Liquidated(Side(850_000, 850_000, 0, 0), Side(1_099_118, 1_099_118, 0, 0), 0, 150_000, 100_000, 882, 0))
  {
    EvenPool(r, price);
    BadDebtFigures(Side(r, 850_000, 150_000, 150_000_000_000), Side(r, r, 0, 0), r, price);
  }

  lemma EvenPool(r: u64, price: u64)
    requires r == 1_000_000 && price == 1_000_000_000
    ensures Construct(r, r, price, price) == Ok((1_000_000, 1_000_000))
  {
    assert Product(r, r) == 1_000_000_000_000;
    DirectX(r, r, price, 1_000_000_000_000, 1_000_000_000_000);
    DirectY(r, r, price, 1_000_000_000_000, 1_000_000_000_000);
    AtPriceFrom(r, r, price, 1_000_000_000_000, 1_000_000_000_000, 1_000_000, 1_000_000);
  }

  lemma BadDebtFigures(lent: Side, posted: Side, r: u64, price: u64)
    requires r == 1_000_000 && price > 0 && Construct(r, r, price, price) == Ok((1_000_000, 1_000_000))
    requires lent == Side(r, 850_000, 150_000, 150_000_000_000) && posted == Side(r, r, 0, 0)
    ensures Liquidation(lent, posted, 150_000_000_000, Terms(100_000, 8_500, price, price, Some(8_500)))
         == Ok(Liquidated(Side(850_000, 850_000, 0, 0), Side(1_099_118, 1_099_118, 0, 0), 0, 150_000, 100_000, 882, 0))
  {
    var t := Terms(100_000, 8_500, price, price, Some(8_500));
    assert OutFloor(1_000_000, 1_000_000, 100_000) == 90_909;
    assert InCeil(1_000_000, 1_000_000, 150_000) == 176_471;
    assert Owed(150_000_000_000, lent) == 150_000;
    assert PlannedDebt(lent, 150_000_000_000, 100_000, 1_000_000, 1_000_000) == 150_000;
    assert Seized(176_471, 100_000) == 100_000 && CallersPart(176_471, 100_000) == 882;
    LiquidationIff(lent, posted, 150_000_000_000, t, 1_000_000, 1_000_000);
    var l := Liquidation(lent, posted, 150_000_000_000, t).value;
    LiquidationOutcome(lent, posted, 150_000_000_000, t, 1_000_000, 1_000_000, l);
    NothingLeft(t, posted, lent);
  }

  lemma NothingLeft(t: Terms, posted: Side, lent: Side)
    ensures PessimisticMaxDebt(0, t.ema, t.directional, posted.reserve, lent.reserve, lent.debt, t.fixedCf)
         == Ok((0, 0, 0))
  {
  }
}
