/** handle_liquidate on the two token sides: what it does, and exactly when it keeps k. */
module Liquidations {
  import opened Words
  import opened Nonlinear
  import opened Kernels
  import opened Curve
  import opened VirtualReserves
  import opened BorrowLimit
  import opened Ledger
  import opened Fairness
  import opened Books
  import opened Bystanders

  /** What the handler reads besides the ledger: the posted collateral, the factor locked in for
      it, the two averages of its price, and the pair's fixed factor. */
  datatype Terms = Terms(collateral: u64, cf: u16, ema: u64, directional: u64, fixedCf: Option<u16>)

  /** What is seized, penalty included, and the caller's part of it, both cut to the collateral. */
  function Seizure(base: u64, collateral: u64): (r: Result<(u64, u64)>)
    ensures r.Ok? ==> r.value.1 <= r.value.0 <= collateral
  {
    var withPenalty :- OkOr(CeilDiv(base * (BPS + LIQUIDATION_PENALTY_BPS), BPS), DebtMathOverflow);
    var seized := Min(withPenalty, collateral);
    Ok((seized, Min(base * LIQUIDATION_INCENTIVE_BPS / BPS, seized)))
  }

  datatype Liquidated = Liquidated(
    debtSide: Side, collateralSide: Side, mine: u128, writtenOff: u64, seized: u64, incentive: u64, cf: u16)

  /** handle_liquidate: test, write-off, the seizure that moves into the reserves, and the factor
      locked in for what is left, whose computation can fail and stop the liquidation. */
  function Liquidation(debtSide: Side, collateralSide: Side, mine: u128, t: Terms): Result<Liquidated> {
    var _ :- Require(mine > 0, ZeroDebtAmount);
    var owed :- DebtOf(mine, debtSide.debt, debtSide.shares);
    var reserves :- Construct(collateralSide.reserve, debtSide.reserve, t.ema, t.ema);
    var value :- AmountOut(reserves.0, reserves.1, t.collateral);
    var _ :- Require(owed >= ApplyCf(value, t.cf), NotUndercollateralized);
    var written :- LiquidateSide(debtSide, mine, owed > value);
    var base :- AmountIn(reserves.0, reserves.1, written.0);
    var (seized, incentive) :- Seizure(base, t.collateral);
    var locked :- PessimisticMaxDebt(t.collateral - seized, t.ema, t.directional,
                                     collateralSide.reserve, debtSide.reserve, debtSide.debt, t.fixedCf);
    var taken :- TakeInSide(collateralSide, seized - incentive);
    Ok(Liquidated(written.1, taken, written.2, written.0, seized, incentive, locked.2))
  }

  lemma LiquidationSides(debtSide: Side, collateralSide: Side, mine: u128, t: Terms)
    requires Liquidation(debtSide, collateralSide, mine, t).Ok?
    requires mine <= debtSide.shares && Gap(debtSide) == 0 && Gap(collateralSide) == 0
    ensures var l := Liquidation(debtSide, collateralSide, mine, t).value;
      && Gap(l.debtSide) == 0 && Gap(l.collateralSide) == 0
      && (l.debtSide.shares == 0 ==> l.debtSide.debt == 0)
      && l.mine <= mine && l.debtSide.shares == debtSide.shares - (mine - l.mine)
      && l.collateralSide.shares == collateralSide.shares && l.collateralSide.debt == collateralSide.debt
  {
    var owed := DebtOf(mine, debtSide.debt, debtSide.shares).value;
    var reserves := Construct(collateralSide.reserve, debtSide.reserve, t.ema, t.ema).value;
    var value := AmountOut(reserves.0, reserves.1, t.collateral).value;
    LiquidationValue(debtSide, mine, owed > value);
  }

  // ---------------------------------------------------------------- known before the call

  /** All shares of an insolvent position, otherwise half of them, rounded up. */
  function SharesOff(mine: nat, insolvent: bool): nat {
    if insolvent then mine else (mine + 1) / 2
  }

  /** Multiplying by the close factor is halving. */
  lemma CloseFactorHalves(mine: nat)
    ensures Ceil(mine * 5_000, 10_000) == (mine + 1) / 2
  {
    CeilAtMost((mine + 1) / 2, mine * 5_000, 10_000);
    CeilAtMost((mine + 1) / 2 - 1, mine * 5_000, 10_000);
  }

  lemma SharesOffIff(mine: u128, insolvent: bool)
    ensures LiquidationShares(mine, insolvent).Ok? <==> insolvent || mine * 5_000 + 9_999 <= U128_MAX
    ensures LiquidationShares(mine, insolvent).Ok? ==>
      LiquidationShares(mine, insolvent).value == SharesOff(mine, insolvent)
  {
    if !insolvent && mine * 5_000 + 9_999 <= U128_MAX {
      CeilDivIsCeil(mine * 5_000, 10_000);
      CloseFactorHalves(mine);
    }
  }

  /** The virtual reserves and the debt a liquidation will write off. */
  datatype Plan = Plan(x: nat, y: nat, w: nat)

  function PlanOf(debtSide: Side, collateralSide: Side, mine: u128, t: Terms): Option<Plan> {
    match Construct(collateralSide.reserve, debtSide.reserve, t.ema, t.ema)
    case Err(_) => None
    case Ok((x, y)) =>
      if debtSide.shares == 0 || x + t.collateral == 0 then None
      else
        var insolvent := Ceil(mine * debtSide.debt, debtSide.shares) > OutFloor(x, y, t.collateral);
        var shares := SharesOff(mine, insolvent);
        MulMono(0, shares, 0, debtSide.debt);
        FloorAtLeast(0, shares * debtSide.debt, debtSide.shares);
        Some(Plan(x, y, shares * debtSide.debt / debtSide.shares))
  }

  /** Three percent on top of the base, rounded up, as far as the collateral lasts. */
  function Seized(base: nat, collateral: nat): int {
    Min(Ceil(base * 10_300, 10_000), collateral)
  }

  /** Half a percent of the base for the caller, as far as the seizure lasts. */
  function CallersPart(base: nat, collateral: nat): int {
    Min(base * 50 / 10_000, Seized(base, collateral))
  }

  /** What reaches the reserves of collateral worth `base`. */
  function NetSeizure(base: nat, collateral: nat): int {
    Seized(base, collateral) - CallersPart(base, collateral)
  }

  /** The proceeds will cover the quote, at the spot reserves, for the debt written off. Reserves,
      price, shares and collateral decide it before the call. */
  predicate ProceedsCover(debtSide: Side, collateralSide: Side, mine: u128, t: Terms) {
    match PlanOf(debtSide, collateralSide, mine, t)
    case None => false
    case Some(Plan(x, y, w)) =>
      && w < y && w < debtSide.reserve
      && NetSeizure(InCeil(x, y, w), t.collateral) >= InCeil(collateralSide.reserve, debtSide.reserve, w)
  }

  /** A liquidation needs pools above the minimum: shallower ones quote nothing. */
  lemma LiquidationNeedsLiquidity(debtSide: Side, collateralSide: Side, mine: u128, t: Terms)
    requires Liquidation(debtSide, collateralSide, mine, t).Ok?
    ensures collateralSide.reserve >= MIN_LIQUIDITY && debtSide.reserve >= MIN_LIQUIDITY
  {
    var w := Liquidation(debtSide, collateralSide, mine, t).value.writtenOff;
    AmountInValue(0, 0, w);
  }

  /** Every successful liquidation does what the plan says. */
  lemma LiquidationFollowsPlan(debtSide: Side, collateralSide: Side, mine: u128, t: Terms)
    requires Liquidation(debtSide, collateralSide, mine, t).Ok?
    requires mine <= debtSide.shares && debtSide.cash + debtSide.debt <= debtSide.reserve
    ensures var l := Liquidation(debtSide, collateralSide, mine, t).value;
      && PlanOf(debtSide, collateralSide, mine, t).Some?
      && var p := PlanOf(debtSide, collateralSide, mine, t).value;
      && l.writtenOff == p.w < p.y
      && l.seized == Seized(InCeil(p.x, p.y, p.w), t.collateral)
      && l.incentive == CallersPart(InCeil(p.x, p.y, p.w), t.collateral)
  {
    var owed := DebtOf(mine, debtSide.debt, debtSide.shares).value;
    var (x, y) := Construct(collateralSide.reserve, debtSide.reserve, t.ema, t.ema).value;
    AmountOutValue(x, y, t.collateral);
    var value := AmountOut(x, y, t.collateral).value;
    LiquidatedDebtSide(debtSide, mine, owed > value);
    WrittenOffIsFloor(debtSide, mine, owed > value);
    DebtOfIsCeil(mine, debtSide.debt, debtSide.shares);
    SharesOffIff(mine, owed > value);
    var w := Liquidation(debtSide, collateralSide, mine, t).value.writtenOff;
    AmountInValue(x, y, w);
    SeizureIs(AmountIn(x, y, w).value, t.collateral);
  }

  lemma SeizureIs(base: u64, collateral: u64)
    ensures Seizure(base, collateral) == Ok((Seized(base, collateral), CallersPart(base, collateral)))
    ensures 0 <= CallersPart(base, collateral) <= Seized(base, collateral) <= collateral
  {
    CeilDivIsCeil(base * 10_300, 10_000);
  }

  // ---------------------------------------------------------------- the product

  lemma MovedReserves(debtSide: Side, collateralSide: Side, mine: u128, t: Terms)
    requires Liquidation(debtSide, collateralSide, mine, t).Ok?
    requires mine <= debtSide.shares && debtSide.cash + debtSide.debt <= debtSide.reserve
    ensures var l := Liquidation(debtSide, collateralSide, mine, t).value;
      && l.writtenOff <= debtSide.reserve && l.incentive <= l.seized
      && l.debtSide.reserve == debtSide.reserve - l.writtenOff
      && l.collateralSide.reserve == collateralSide.reserve + (l.seized - l.incentive)
  {
    var owed := DebtOf(mine, debtSide.debt, debtSide.shares).value;
    var reserves := Construct(collateralSide.reserve, debtSide.reserve, t.ema, t.ema).value;
    var value := AmountOut(reserves.0, reserves.1, t.collateral).value;
    LiquidationValue(debtSide, mine, owed > value);
  }

  /** A liquidation keeps k if and only if its proceeds cover its debt, decided beforehand. */
  lemma LiquidationKeepsKIff(debtSide: Side, collateralSide: Side, mine: u128, t: Terms)
    requires Liquidation(debtSide, collateralSide, mine, t).Ok?
    requires mine <= debtSide.shares && debtSide.cash + debtSide.debt <= debtSide.reserve
    ensures var l := Liquidation(debtSide, collateralSide, mine, t).value;
      (l.collateralSide.reserve * l.debtSide.reserve >= collateralSide.reserve * debtSide.reserve)
        <==> ProceedsCover(debtSide, collateralSide, mine, t)
  {
    var l := Liquidation(debtSide, collateralSide, mine, t).value;
    MovedReserves(debtSide, collateralSide, mine, t);
    LiquidationFollowsPlan(debtSide, collateralSide, mine, t);
    LiquidationNeedsLiquidity(debtSide, collateralSide, mine, t);
    ProductMovedIff(collateralSide.reserve, debtSide.reserve, l.seized - l.incentive, l.writtenOff);
  }

  lemma ProductMovedIff(rc: nat, rd: nat, net: nat, w: nat)
    requires rc > 0 && w <= rd && rd > 0
    ensures ((rc + net) * (rd - w) >= rc * rd) <==> w < rd && net >= InCeil(rc, rd, w)
  {
    if w < rd {
      ProductKeptIff(rc, rd, net, w);
    } else {
      MulMono(1, rc, 1, rd);
    }
  }

  // ---------------------------------------------------------------- when the penalty suffices

  /** The collateral at hand does not cut the seizure short. */
  predicate Uncut(x: nat, y: nat, w: nat, collateral: nat)
    requires w < y
  {
    Ceil(InCeil(x, y, w) * (BPS + LIQUIDATION_PENALTY_BPS), BPS) <= collateral
  }

  /** The virtual reserves quote the debt at no less than the spot reserves do, up to the two and
      a half percent that penalty less incentive leave. */
  predicate WithinPenalty(x: nat, y: nat, rc: nat, rd: nat, w: nat) {
    BPS * (rc * (y - w)) <= (BPS + LIQUIDATION_PENALTY_BPS - LIQUIDATION_INCENTIVE_BPS) * (x * (rd - w))
  }

  lemma NetAboveBase(base: nat, collateral: nat)
    requires Ceil(base * (BPS + LIQUIDATION_PENALTY_BPS), BPS) <= collateral
    ensures NetSeizure(base, collateral) * BPS >= base * (BPS + LIQUIDATION_PENALTY_BPS - LIQUIDATION_INCENTIVE_BPS)
  {
    CeilSpec(base * (BPS + LIQUIDATION_PENALTY_BPS), BPS);
    FloorSpec(base * LIQUIDATION_INCENTIVE_BPS, BPS);
  }

  lemma PenaltyCoversQuote(x: nat, y: nat, rc: nat, rd: nat, w: nat, net: int, base: nat)
    requires w < y && w < rd && base == InCeil(x, y, w) && WithinPenalty(x, y, rc, rd, w)
    requires net * BPS >= base * (BPS + LIQUIDATION_PENALTY_BPS - LIQUIDATION_INCENTIVE_BPS)
    ensures net >= InCeil(rc, rd, w)
  {
    CeilSpec(w * x, y - w);
    MulMono(0, w, 0, x);
    CeilAtMost(-1, w * x, y - w);
    CrossQuotes(w, rc, x, y - w, rd - w, base, net, BPS + LIQUIDATION_PENALTY_BPS - LIQUIDATION_INCENTIVE_BPS, BPS);
    CeilAtMost(net, w * rc, rd - w);
  }

  lemma CrossQuotes(w: nat, rc: nat, x: nat, p: nat, q: nat, base: nat, net: int, f: nat, b: nat)
    requires p > 0 && b > 0 && w * x <= base * p && base * f <= net * b && b * (rc * p) <= f * (x * q)
    ensures w * rc <= net * q
  {
    MulMono(0, base, 0, f);
    MulMono(0, rc, 0, p);
    MulMono(0, f, 0, q);
    MulMono(0, p, 0, q);
    MulMono(0, w, 0, x);
    calc {
      (w * rc) * (b * p);
    ==  { Regroup(w, rc, b, p); Associate(w, b, rc * p); }
      w * (b * (rc * p));
    <=  { MulMono(0, b, 0, rc * p); MulMono(w, w, b * (rc * p), f * (x * q)); }
      w * (f * (x * q));
    ==  { Associate(w, f, x * q); Regroup(w, f, x, q); }
      (w * x) * (f * q);
    <=  { MulMono(w * x, base * p, f * q, f * q); }
      (base * p) * (f * q);
    ==  { Regroup(base, p, f, q); }
      (base * f) * (p * q);
    <=  { MulMono(base * f, net * b, p * q, p * q); }
      (net * b) * (p * q);
    ==  { Regroup(net, b, q, p); }
      (net * q) * (b * p);
    }
    MulMono(1, b, 1, p);
    CancelLe(w * rc, net * q, b * p);
  }

  /** A liquidation that is not cut short and whose virtual quote is within the penalty of the
      spot quote covers its debt. */
  lemma PenaltySuffices(debtSide: Side, collateralSide: Side, mine: u128, t: Terms)
    requires PlanOf(debtSide, collateralSide, mine, t).Some?
    requires var Plan(x, y, w) := PlanOf(debtSide, collateralSide, mine, t).value;
      && w < y && w < debtSide.reserve && Uncut(x, y, w, t.collateral)
      && WithinPenalty(x, y, collateralSide.reserve, debtSide.reserve, w)
    ensures ProceedsCover(debtSide, collateralSide, mine, t)
  {
    var Plan(x, y, w) := PlanOf(debtSide, collateralSide, mine, t).value;
    var base := InCeil(x, y, w);
    NetAboveBase(base, t.collateral);
    PenaltyCoversQuote(x, y, collateralSide.reserve, debtSide.reserve, w, NetSeizure(base, t.collateral), base);
  }

  /** At a price not above spot, with the root of k * NAD / P taken directly, the virtual
      reserves are deeper in collateral and shallower in debt than the real ones. */
  lemma PessimisticReserves(rc: u64, rd: u64, price: u64)
    requires rc >= MIN_LIQUIDITY && rd >= MIN_LIQUIDITY && 0 < price && price * rc <= rd * NAD
    requires Product(rc, rd) * NAD <= U128_MAX && AtPrice(rc, rd, price).Ok?
    ensures rc <= AtPrice(rc, rd, price).value.0
    ensures AtPrice(rc, rd, price).value.1 <= rd
  {
    DeeperCollateral(rc, rd, price);
    ShallowerDebt(rc, rd, price);
  }

  lemma DeeperCollateral(rc: u64, rd: u64, price: u64)
    requires 0 < price && price * rc <= rd * NAD && Product(rc, rd) * NAD <= U128_MAX
    ensures XSquared(rc, rd, price).Ok? && rc <= ISqrt(XSquared(rc, rd, price).value)
  {
    XSquaredValue(rc, rd, price);
    CrossedBelow(price, rc, rd, rc);
    FloorAtLeast(rc * rc, Product(rc, rd) * NAD, price);
    SquareLt(rc, ISqrt(XSquared(rc, rd, price).value) + 1);
  }

  lemma ShallowerDebt(rc: u64, rd: u64, price: u64)
    requires price * rc <= rd * NAD && YSquared(rc, rd, price).Ok?
    ensures ISqrt(YSquared(rc, rd, price).value) <= rd
  {
    YSquaredBelow(rc, rd, price);
    CrossedBelow(price, rc, rd, rd);
    CancelLe(YSquared(rc, rd, price).value, rd * rd, NAD);
    SquareLe(ISqrt(YSquared(rc, rd, price).value), rd);
  }

  /** price * rc <= rd * NAD, multiplied by m. */
  lemma CrossedBelow(price: nat, rc: nat, rd: nat, m: nat)
    requires price * rc <= rd * NAD
    ensures (rc * m) * price <= (m * rd) * NAD
    ensures m == rc ==> (m * rd) * NAD == (rc * rd) * NAD
    ensures m == rd ==> (rc * m) * price == (rc * rd) * price
  {
    MulMono(0, price, 0, rc);
    MulMono(price * rc, rd * NAD, m, m);
    Associate(price, rc, m);
    Associate(rc, m, price);
  }

  /** So at a price not above spot an uncut liquidation covers its debt. */
  lemma NotAboveSpotCovers(debtSide: Side, collateralSide: Side, mine: u128, t: Terms)
    requires PlanOf(debtSide, collateralSide, mine, t).Some?
    requires var Plan(x, y, w) := PlanOf(debtSide, collateralSide, mine, t).value;
      w < y && Uncut(x, y, w, t.collateral)
    requires collateralSide.reserve >= MIN_LIQUIDITY && debtSide.reserve >= MIN_LIQUIDITY
    requires 0 < t.ema && t.ema * collateralSide.reserve <= debtSide.reserve * NAD
    requires Product(collateralSide.reserve, debtSide.reserve) * NAD <= U128_MAX
    ensures ProceedsCover(debtSide, collateralSide, mine, t)
  {
    var Plan(x, y, w) := PlanOf(debtSide, collateralSide, mine, t).value;
    var rc, rd := collateralSide.reserve, debtSide.reserve;
    PessimisticReserves(rc, rd, t.ema);
    MulMono(rc, x, y - w, rd - w);
    PenaltySuffices(debtSide, collateralSide, mine, t);
  }

  // ---------------------------------------------------------------- a solvent liquidation

  /** Solvent, uncut, and still k falls: at a symmetric average twice the spot a debt of 150,000
      backed by collateral worth 175,220 is half written off for 40,592 units of collateral,
      which the spot reserves value at less. */
  lemma SolventLiquidationCanLowerK()
    ensures var lent, posted := Side(1_000_000, 850_000, 150_000, 150_000_000_000), Side(1_000_000, 1_000_000, 0, 0);
      var t := Terms(100_000, 8_500, 2 * NAD, 2 * NAD, Some(8_500));
      var l := Liquidation(lent, posted, 150_000_000_000, t);
      && DebtOf(150_000_000_000, lent.debt, lent.shares) == Ok(150_000)
      && ImpactValue(posted.reserve, lent.reserve, t.ema, t.ema, t.collateral) == Ok(175_220)
      && l.Ok? && l.value.seized < t.collateral
      && l.value.debtSide.reserve == 925_000 && l.value.collateralSide.reserve == 1_040_592
      && l.value.collateralSide.reserve * l.value.debtSide.reserve < posted.reserve * lent.reserve
  {
    DearPool(1_000_000, 2 * NAD);
    DearLiquidation(1_000_000, 2 * NAD);
    DearQuotes();
    assert ImpactValue(1_000_000, 1_000_000, 2 * NAD, 2 * NAD, 100_000) == Ok(175_220);
  }

  lemma DearPool(r: u64, price: u64)
    requires r == 1_000_000 && price == 2 * NAD
    ensures Construct(r, r, price, price) == Ok((707_106, 1_414_213))
  {
    assert Product(r, r) == 1_000_000_000_000;
    DirectX(r, r, price, 1_000_000_000_000, 500_000_000_000);
    DirectY(r, r, price, 1_000_000_000_000, 2_000_000_000_000);
    AtPriceFrom(r, r, price, 500_000_000_000, 2_000_000_000_000, 707_106, 1_414_213);
  }

  lemma DearQuotes()
    ensures AmountOut(707_106, 1_414_213, 100_000) == Ok(175_220)
    ensures AmountOut(707_106, 1_414_213, 59_210) == Ok(109_270)
    ensures AmountIn(707_106, 1_414_213, 75_000) == Ok(39_601)
    ensures Seizure(39_601, 100_000) == Ok((40_790, 198))
    ensures ApplyCf(175_220, 8_500) == 148_937
  {
  }

  lemma DearWriteOff(s: Side)
    requires s == Side(1_000_000, 850_000, 150_000, 150_000_000_000)
    ensures DebtOf(150_000_000_000, s.debt, s.shares) == Ok(150_000)
    ensures LiquidateSide(s, 150_000_000_000, false)
         == Ok((75_000, Side(925_000, 850_000, 75_000, 75_000_000_000), 75_000_000_000))
  {
    assert LiquidationShares(150_000_000_000, false) == Ok(75_000_000_000);
    assert LiquidationDebt(s, 150_000, 75_000_000_000) == Ok(75_000);
  }

  /** The factor locked in afterwards, on the fixed path. */
  lemma DearFactor(r: u64, price: u64)
    requires price > 0 && Construct(r, r, price, price) == Ok((707_106, 1_414_213))
    ensures PessimisticMaxDebt(59_210, price, price, r, r, 150_000, Some(8_500)) == Ok((88_235, 8_075, 8_500))
  {
    DearQuotes();
    UnshrunkFactor(8_500, price, price);
    assert MaxCf(8_500) == 8_075 && ApplyCf(109_270, 8_075) == 88_235;
  }

  lemma DearLiquidation(r: u64, price: u64)
    requires r == 1_000_000 && price > 0 && Construct(r, r, price, price) == Ok((707_106, 1_414_213))
    ensures Liquidation(Side(r, 850_000, 150_000, 150_000_000_000), Side(r, r, 0, 0), 150_000_000_000,
                        Terms(100_000, 8_500, price, price, Some(8_500)))
         == Ok(Liquidated(Side(925_000, 850_000, 75_000, 75_000_000_000), Side(1_040_592, 1_040_592, 0, 0),
                          75_000_000_000, 75_000, 40_790, 198, 8_500))
    ensures DebtOf(150_000_000_000, 150_000, 150_000_000_000) == Ok(150_000)
  {
    DearQuotes();
    DearWriteOff(Side(r, 850_000, 150_000, 150_000_000_000));
    DearFactor(r, price);
    LiquidationFrom(Side(r, 850_000, 150_000, 150_000_000_000), Side(r, r, 0, 0), 150_000_000_000,
                    Terms(100_000, 8_500, price, price, Some(8_500)),
                    150_000, 707_106, 1_414_213, 175_220,
                    75_000, Side(925_000, 850_000, 75_000, 75_000_000_000), 75_000_000_000,
                    39_601, 40_790, 198, (88_235, 8_075, 8_500), Side(1_040_592, 1_040_592, 0, 0));
  }

  /** A partial liquidation from the values of its parts. */
  lemma LiquidationFrom(
    lent: Side, posted: Side, mine: u128, t: Terms, owed: u64, x: u64, y: u64, value: u64,
    w: u64, after: Side, mine': u128, base: u64, seized: u64, incentive: u64, locked: (u64, u16, u16), taken: Side)
    requires mine > 0 && DebtOf(mine, lent.debt, lent.shares) == Ok(owed)
    requires Construct(posted.reserve, lent.reserve, t.ema, t.ema) == Ok((x, y))
    requires AmountOut(x, y, t.collateral) == Ok(value) && ApplyCf(value, t.cf) <= owed <= value
    requires LiquidateSide(lent, mine, false) == Ok((w, after, mine')) && AmountIn(x, y, w) == Ok(base)
    requires Seizure(base, t.collateral) == Ok((seized, incentive)) && incentive <= seized <= t.collateral
    requires PessimisticMaxDebt(t.collateral - seized, t.ema, t.directional,
                                posted.reserve, lent.reserve, lent.debt, t.fixedCf) == Ok(locked)
    requires TakeInSide(posted, seized - incentive) == Ok(taken)
    ensures Liquidation(lent, posted, mine, t) == Ok(Liquidated(after, taken, mine', w, seized, incentive, locked.2))
  {
  }
}
