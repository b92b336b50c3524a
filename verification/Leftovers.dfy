/** When total debt reaches zero while shares remain: exactly which steps do it, and a run of
    the handlers that does. */
module Leftovers {
  import opened Words
  import opened Nonlinear
  import opened Kernels
  import opened Curve
  import opened VirtualReserves
  import opened BorrowLimit
  import opened Ledger
  import opened Fairness
  import opened Books
  import opened PairState
  import opened Liquidations
  import opened Market
  import opened Borrowing

  predicate SharesWithoutDebt(s: Side) {
    s.shares > 0 && s.debt == 0
  }

  /** Repaying everything leaves shares without debt exactly when others hold shares that
      together carry less than one unit. */
  lemma RepayAllDrainsIff(s: Side, mine: u128)
    requires mine <= s.shares && RepaySide(s, mine, None).Ok?
    ensures SharesWithoutDebt(RepaySide(s, mine, None).value.0) <==>
            mine < s.shares && (s.shares - mine) * s.debt < s.shares
  {
    var owed := DebtOf(mine, s.debt, s.shares).value;
    DebtOfIsCeil(mine, s.debt, s.shares);
    MulMono(0, mine, 0, s.debt);
    NoSharesOweNothing(mine, s.debt, s.shares);
    FullRepaymentBurnsEverything(s, mine, owed);
    CeilAtMost(s.debt - 1, mine * s.debt, s.shares);
    DistributeMinus(s.debt, 1, s.shares);
    DistributeMinus(s.shares, mine, s.debt);
  }

  lemma NoSharesOweNothing(mine: nat, d: nat, t: nat)
    requires t > 0
    ensures Ceil(mine * d, t) > 0 ==> mine > 0 && d > 0
  {
    CeilAtMost(0, mine * d, t);
  }

  /** Repaying a given amount does so exactly when it is the whole debt and others hold shares. */
  lemma RepayDrainsIff(s: Side, mine: u128, amount: u64)
    requires mine <= s.shares && RepaySide(s, mine, Some(amount)).Ok?
    ensures SharesWithoutDebt(RepaySide(s, mine, Some(amount)).value.0) <==> amount == s.debt && mine < s.shares
  {
    DebtOfIsCeil(mine, s.debt, s.shares);
    MulMono(mine, s.shares, s.debt, s.debt);
    CeilAtMost(s.debt, mine * s.debt, s.shares);
    RepayParts(s, mine, amount);
    RepaymentNeverOrphans(s, mine, amount);
    if amount == s.debt {
      CancelLe(mine, s.shares, s.debt);
      WholeRepaymentBurnsAll(mine, s.shares, s.debt, mine - RepaySide(s, mine, Some(amount)).value.1);
    }
  }

  lemma WholeRepaymentBurnsAll(mine: nat, t: nat, d: nat, burned: nat)
    requires mine <= t && d > 0 && burned <= mine
    requires burned < mine ==> d * t < (burned + 1) * d
    ensures burned == mine
  {
    if burned < mine {
      MulMono(burned + 1, t, d, d);
    }
  }

  /** No other step of the program does: a liquidation that writes off all debt writes off all
      shares with it. */
  lemma StepDrainsIff(b: Book, step: Step)
    requires Sound(b) && Unsaturated(b, step) && Next(b, step).Ok? && !step.WriteDown?
    requires b.side.debt > 0
    ensures SharesWithoutDebt(Next(b, step).value.side) <==>
      match step
      case Repay(who, amount) => amount == b.side.debt && b.holdings[who] < b.side.shares
      case RepayAll(who) =>
        b.holdings[who] < b.side.shares && (b.side.shares - b.holdings[who]) * b.side.debt < b.side.shares
      case _ => false
  {
    match step
    case Accrue(integral, bps) =>
      AccrueValue(b.side, integral, bps);
    case Borrow(who, amount) =>
      IncreaseValue(b.side, b.holdings[who], amount);
    case Repay(who, amount) =>
      PartBelowTotal(b.holdings, who);
      RepayDrainsIff(b.side, b.holdings[who], amount);
    case RepayAll(who) =>
      PartBelowTotal(b.holdings, who);
      RepayAllDrainsIff(b.side, b.holdings[who]);
    case Liquidate(who, insolvent) =>
      PartBelowTotal(b.holdings, who);
      LiquidationLeavesDebt(b.side, b.holdings[who], insolvent);
    case _ =>
  }

  lemma LiquidationLeavesDebt(s: Side, mine: u128, insolvent: bool)
    requires LiquidateSide(s, mine, insolvent).Ok? && mine <= s.shares && s.debt <= s.reserve && s.debt > 0
    ensures !SharesWithoutDebt(LiquidateSide(s, mine, insolvent).value.1)
  {
    var w := LiquidationShares(mine, insolvent).value;
    LiquidationValue(s, mine, insolvent);
    PartOfDebt(w, s.debt, s.shares);
    LiquidationDebtValue(s, DebtOf(mine, s.debt, s.shares).value, w);
    if w < s.shares {
      FloorAtLeast(s.debt, w * s.debt, s.shares);
      MulMono(w, s.shares - 1, s.debt, s.debt);
      DistributeMinus(s.shares, 1, s.debt);
    }
  }

  // ---------------------------------------------------------------- the lock

  /** A side with shares but no debt refuses every borrow and every repayment. */
  lemma LockedSideRefuses(b: Book, step: Step)
    requires SharesWithoutDebt(b.side) && (step.Borrow? || step.Repay? || step.RepayAll?)
    ensures Next(b, step).Err?
  {
    match step
    case Borrow(who, amount) =>
      if who < |b.holdings| {
        NoBorrowWithoutDebt(b.side, b.holdings[who], amount);
      }
    case Repay(who, amount) =>
      if who < |b.holdings| {
        NothingToRepay(b.side, b.holdings[who], Some(amount));
      }
    case RepayAll(who) =>
      if who < |b.holdings| {
        NothingToRepay(b.side, b.holdings[who], None);
      }
  }

  lemma NothingToRepay(s: Side, mine: u128, requested: Option<u64>)
    requires SharesWithoutDebt(s)
    ensures RepaySide(s, mine, requested).Err?
  {
    var owed := DebtOf(mine, s.debt, s.shares);
    if owed.Ok? {
      DebtOfIsCeil(mine, s.debt, s.shares);
      ZeroCeil(s.shares);
      assert mine * s.debt == 0;
    }
  }

  lemma ZeroCeil(t: nat)
    requires t > 0
    ensures Ceil(0, t) == 0
  {
    CeilAtMost(0, 0, t);
    CeilAtMost(-1, 0, t);
  }

  /** Steps that write shares off: the only ones that can release the lock. */
  predicate WritesOff(step: Step) {
    step.Liquidate? || step.WriteDown?
  }

  lemma StepKeepsLock(b: Book, step: Step)
    requires Sound(b) && SharesWithoutDebt(b.side) && Unsaturated(b, step) && !WritesOff(step)
    ensures SharesWithoutDebt(After(b, step).side) && After(b, step).side.shares == b.side.shares
    ensures Sound(After(b, step))
  {
    if Next(b, step).Ok? {
      StepKeepsSound(b, step);
      if step.Borrow? || step.Repay? || step.RepayAll? {
        LockedSideRefuses(b, step);
      }
      match step {
        case Accrue(integral, bps) => AccrueValue(b.side, integral, bps);
        case _ =>
      }
    }
  }

  /** Over every run that writes nothing off the lock holds: the same shares, no debt, and so no
      borrow or repayment ever succeeds. */
  lemma {:induction false} RunKeepsLock(b: Book, steps: seq<Step>)
    requires Sound(b) && SharesWithoutDebt(b.side) && Regular(b, steps)
    requires forall step <- steps :: !WritesOff(step)
    ensures SharesWithoutDebt(Run(b, steps).side) && Run(b, steps).side.shares == b.side.shares
    decreases |steps|
  {
    if steps != [] {
      assert steps[0] in steps;
      StepKeepsLock(b, steps[0]);
      RunKeepsLock(After(b, steps[0]), steps[1..]);
    }
  }

  /** And the handler liquidates a locked side only where the collateral supports no debt. */
  lemma LockedLiquidationIsWorthless(debtSide: Side, collateralSide: Side, mine: u128, t: Terms)
    requires SharesWithoutDebt(debtSide) && Liquidation(debtSide, collateralSide, mine, t).Ok?
    ensures ImpactValue(collateralSide.reserve, debtSide.reserve, t.ema, t.ema, t.collateral).Ok?
    ensures ApplyCf(ImpactValue(collateralSide.reserve, debtSide.reserve, t.ema, t.ema, t.collateral).value, t.cf) == 0
    ensures Liquidation(debtSide, collateralSide, mine, t).value.writtenOff == 0
  {
    DebtOfIsCeil(mine, debtSide.debt, debtSide.shares);
    ZeroCeil(debtSide.shares);
    assert mine * debtSide.debt == 0;
    var value := ImpactValue(collateralSide.reserve, debtSide.reserve, t.ema, t.ema, t.collateral).value;
    ApplyCfMono(value, 0, t.cf);
  }

  // ---------------------------------------------------------------- a run of the handlers

  /** A balanced pool of two million units at price one, nothing borrowed yet. */
  function FreshPool(): State {
    State(Side(1_000_000, 1_000_000, 0, 0), Side(1_000_000, 1_000_000, 0, 0), Ema(NAD, NAD), Ema(NAD, NAD),
          0, 0, 0, 60_000, 30, None)
  }

  /** Two borrowers with three units of collateral each take the one unit their limits allow.
      The first is liquidated in part, which writes off half its shares but no debt and raises
      the other's reading from one unit to two; the other repays in full. Half a million shares
      are left and no debt. */
  lemma DebtCanVanishBeforeShares()
    ensures HandleBorrow(FreshPool(), true, 0, 3, 1, 0).Ok?
    ensures var first := HandleBorrow(FreshPool(), true, 0, 3, 1, 0).value;
      && HandleBorrow(first.pair, true, 0, 3, 1, 0).Ok?
      && var second := HandleBorrow(first.pair, true, 0, 3, 1, 0).value;
      var lent := second.pair.side1;
      && first.mine == second.mine == 1_000_000
      && lent == Side(1_000_000, 999_998, 2, 2_000_000)
      && var l := Liquidation(lent, second.pair.side0, first.mine, Terms(3, first.cf, NAD, NAD, None));
      && l.Ok? && l.value.mine == 500_000
      && l.value.debtSide == Side(1_000_000, 999_998, 2, 1_500_000)
      && Owed(second.mine, lent) == 1 && Owed(second.mine, l.value.debtSide) == 2
      && RepaySide(l.value.debtSide, second.mine, None) == Ok((Side(1_000_000, 1_000_000, 0, 500_000), 0))
  {
    MillionPool();
    var r: u64 := 1_000_000;
    var p := FreshPool();
    TinyLimits(r, NAD);
    TinyBorrow(p, r, NAD, 1_000_000, 0, 0, 1_000_000);
    var p1 := p.(side1 := Side(r, 999_999, 1, 1_000_000));
    TinyBorrow(p1, r, NAD, 999_999, 1, 1_000_000, 1_000_000);
    TinyFactors(2);
    HalfWrittenOff(Side(1_000_000, 999_998, 2, 2_000_000));
    TinyLiquidation(r, NAD);
    BystanderPaysMore();
    LastRepayment(Side(r, 999_998, 2, 1_500_000));
  }

  /** The liquidation of that run alone: a bystander holding half of all shares read as owing one
      unit before it and reads as owing two after it. */
  lemma LiquidationCanChargeBystanders()
    ensures var lent, posted := Side(1_000_000, 999_998, 2, 2_000_000), Side(1_000_000, 1_000_000, 0, 0);
      var l := Liquidation(lent, posted, 1_000_000, Terms(3, 8500, NAD, NAD, None));
      && l.Ok? && l.value.writtenOff == 0
      && Owed(1_000_000, lent) == 1 && Owed(1_000_000, l.value.debtSide) == 2
  {
    MillionPool();
    var r: u64 := 1_000_000;
    TinyLimits(r, NAD);
    TinyFactors(2);
    HalfWrittenOff(Side(1_000_000, 999_998, 2, 2_000_000));
    TinyLiquidation(r, NAD);
    BystanderPaysMore();
  }

  /** Three units of collateral allow one unit of debt, whether nothing, one or two units are
      already lent. */
  lemma TinyLimits(r: u64, price: u64)
    requires r == 1_000_000 && price > 0 && Construct(r, r, price, price) == Ok((r, r))
    ensures PessimisticMaxDebt(3, price, price, r, r, 0, None) == Ok((1, 8075, 8500))
    ensures PessimisticMaxDebt(3, price, price, r, r, 1, None) == Ok((1, 8075, 8500))
    ensures PessimisticMaxDebt(3, price, price, r, r, 2, None) == Ok((1, 8075, 8500))
    ensures AmountOut(r, r, 3) == Ok(2) && AmountIn(r, r, 0) == Ok(0)
  {
    TinyQuotes(r);
    TinyCosts(r);
    TinyLimit(r, price, 0, 0, 2);
    TinyLimit(r, price, 1, 2, 4);
    TinyLimit(r, price, 2, 3, 5);
  }

  lemma TinyQuotes(r: u64)
    requires r == 1_000_000
    ensures AmountOut(r, r, 3) == Ok(2) && AmountOut(r, r, 5) == Ok(4) && AmountOut(r, r, 6) == Ok(5)
  {
    AmountOutValue(r, r, 3);
    AmountOutValue(r, r, 5);
    AmountOutValue(r, r, 6);
    assert OutFloor(r, r, 3) == 2 && OutFloor(r, r, 5) == 4 && OutFloor(r, r, 6) == 5;
  }

  lemma TinyCosts(r: u64)
    requires r == 1_000_000
    ensures AmountIn(r, r, 0) == Ok(0) && AmountIn(r, r, 1) == Ok(2) && AmountIn(r, r, 2) == Ok(3)
  {
    AmountInValue(r, r, 0);
    AmountInValue(r, r, 1);
    AmountInValue(r, r, 2);
    assert InCeil(r, r, 0) == 0 && InCeil(r, r, 1) == 2 && InCeil(r, r, 2) == 3;
  }

  lemma TinyLimit(r: u64, price: u64, debt: u64, utilized: u64, allowed: u64)
    requires r > 0 && price > 0 && Construct(r, r, price, price) == Ok((r, r))
    requires AmountOut(r, r, 3) == Ok(2) && AmountIn(r, r, debt) == Ok(utilized)
    requires utilized <= 10 && AmountOut(r, r, utilized + 3) == Ok(allowed)
    requires 2 <= allowed - debt <= 10
    ensures PessimisticMaxDebt(3, price, price, r, r, debt, None) == Ok((1, 8075, 8500))
  {
    TinyFactors(allowed - debt);
    DynamicLimitFrom(3, price, price, r, r, debt, r, r, 2, utilized, allowed, 8500);
  }

  lemma TinyFactors(room: u64)
    requires 2 <= room <= 10
    ensures DynamicCf(room, 2) >= 8500 && MaxCf(8500) == 8075
    ensures ApplyCf(2, 8075) == 1 && ApplyCf(2, 8500) == 1
  {
    assert DynamicCf(room, 2) == room * BPS / 2;
  }

  lemma TinyBorrow(p: State, r: u64, price: u64, cash: u64, debt: u64, shares: u128, minted: u128)
    requires p.side0 == Side(r, r, 0, 0) && p.side1 == Side(r, cash, debt, shares)
    requires p.ema0 == Ema(price, price) && p.lastUpdate == 0 && p.fixedCf == None
    requires r > 0 && cash > 0 && PessimisticMaxDebt(3, price, price, r, r, debt, None) == Ok((1, 8075, 8500))
    requires minted == 1_000_000 && debt <= 1 && shares == debt * 1_000_000
    ensures HandleBorrow(p, true, 0, 3, 1, 0)
         == Ok(Borrowed(p.(side1 := Side(r, cash - 1, debt + 1, shares + minted)), minted, 1, 1, 8075, 8500))
  {
    IncreaseValue(p.side1, 0, 1);
    assert p.EmaPrice(true, 0) == Ok(price) && p.DirectionalPrice(true, 0) == Ok(price);
    DebtOfValue(0, debt, shares);
    if debt == 1 {
      CeilAtMost(0, 0, shares);
      CeilAtMost(-1, 0, shares);
      CeilAtMost(shares, shares, 1);
      CeilAtMost(shares - 1, shares, 1);
    }
  }

  lemma TinyLiquidation(r: u64, price: u64)
    requires r > 0 && price > 0 && Construct(r, r, price, price) == Ok((r, r))
    requires PessimisticMaxDebt(3, price, price, r, r, 2, None) == Ok((1, 8075, 8500))
    requires AmountOut(r, r, 3) == Ok(2) && AmountIn(r, r, 0) == Ok(0) && ApplyCf(2, 8500) == 1
    requires DebtOf(1_000_000, 2, 2_000_000) == Ok(1)
    requires LiquidateSide(Side(r, 999_998, 2, 2_000_000), 1_000_000, false)
          == Ok((0, Side(r, 999_998, 2, 1_500_000), 500_000))
    ensures Liquidation(Side(r, 999_998, 2, 2_000_000), Side(r, r, 0, 0), 1_000_000, Terms(3, 8500, price, price, None))
         == Ok(Liquidated(Side(r, 999_998, 2, 1_500_000), Side(r, r, 0, 0), 500_000, 0, 0, 0, 8500))
  {
    NothingSeized(3);
    LiquidationFrom(Side(r, 999_998, 2, 2_000_000), Side(r, r, 0, 0), 1_000_000, Terms(3, 8500, price, price, None),
                    1, r, r, 2, 0, Side(r, 999_998, 2, 1_500_000), 500_000, 0, 0, 0, (1, 8075, 8500), Side(r, r, 0, 0));
  }

  lemma NothingSeized(collateral: u64)
    ensures Seizure(0, collateral) == Ok((0, 0))
  {
  }

  lemma BystanderPaysMore()
    ensures Owed(1_000_000, Side(1_000_000, 999_998, 2, 2_000_000)) == 1
    ensures Owed(1_000_000, Side(1_000_000, 999_998, 2, 1_500_000)) == 2
  {
  }

  lemma HalfWrittenOff(s: Side)
    requires s == Side(1_000_000, 999_998, 2, 2_000_000)
    ensures DebtOf(1_000_000, s.debt, s.shares) == Ok(1)
    ensures LiquidateSide(s, 1_000_000, false) == Ok((0, s.(shares := 1_500_000), 500_000))
  {
    HalfOfShares();
    assert DebtOf(1_000_000, 2, 2_000_000) == Ok(1);
    assert LiquidationDebt(s, 1, 500_000) == Ok(0);
    NothingWrittenOff(s, 1_000_000, 500_000);
  }

  lemma HalfOfShares()
    ensures LiquidationShares(1_000_000, false) == Ok(500_000)
  {
  }

  lemma NothingWrittenOff(s: Side, mine: u128, exact: u128)
    requires exact <= mine <= s.shares && exact < s.shares
    ensures Decrease(s, mine, 0, WriteOff(exact)) == Ok((s.(shares := s.shares - exact), mine - exact))
  {
  }

  lemma LastRepayment(s: Side)
    requires s == Side(1_000_000, 999_998, 2, 1_500_000)
    ensures RepaySide(s, 1_000_000, None) == Ok((Side(1_000_000, 1_000_000, 0, 500_000), 0))
  {
  }
}
