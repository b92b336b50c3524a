/** The borrow handler of instructions/lending/borrow.rs on one pair: limit, ledger and
    liquidation test together. Collateral is token0 when `zero` holds, and then token1 is lent. */
module Borrowing {
  import opened Words
  import opened Nonlinear
  import opened VirtualReserves
  import opened BorrowLimit
  import opened Ledger
  import opened Fairness
  import opened PairState
  import opened Liquidations
  import opened Market

  datatype Borrowed = Borrowed(pair: State, mine: u128, amount: u64, limit: u64, maxCf: u16, cf: u16)

  /** The largest word asks for everything up to the limit. */
  function ResolveAmount(requested: u64, limit: u64, owed: u64): Result<u64> {
    var amount :- if requested == U64_MAX then OkOr(CheckedSub64(limit, owed), DebtMathOverflow) else Ok(requested);
    var _ :- Require(amount > 0, AmountZero);
    Ok(amount)
  }

  function HandleBorrow(p: State, zero: bool, mine: u128, collateral: u64, requested: u64, slot: u64): Result<Borrowed>
  {
    var lent := p.SideOf(!zero);
    var owed :- DebtOf(mine, lent.debt, lent.shares);
    var limit :- p.MaxDebtAndCf(zero, collateral, slot);
    var amount :- ResolveAmount(requested, limit.0, owed);
    var newDebt :- OkOr(CheckedAdd64(owed, amount), DebtMathOverflow);
    var _ :- Require(limit.0 >= newDebt, BorrowingPowerExceeded);
    var _ :- Require(lent.cash >= amount, InsufficientCashReserve);
    var next :- Increase(lent, mine, amount);
    Ok(Borrowed(p.WithSide(!zero, next.0), next.1, amount, limit.0, limit.1, limit.2))
  }

  /** The ledger is fit to lend: nobody holds more than everything, debt has shares behind it,
      nothing saturates, and a share is not worth more than a unit of debt. */
  predicate FitToLend(s: Side, mine: u128, amount: u64) {
    && Tidy(s) && mine <= s.shares
    && MintFits(s, amount) && s.debt + amount <= U64_MAX
    && (s.shares > 0 ==> s.debt + amount <= s.shares)
  }

  /** After a borrow the position reads as owing at least what it owed plus the loan, and at
      most one unit more than the limit; asking for everything reaches the limit. */
  lemma BorrowStaysWithinLimit(p: State, zero: bool, mine: u128, collateral: u64, requested: u64, slot: u64)
    requires HandleBorrow(p, zero, mine, collateral, requested, slot).Ok?
    requires FitToLend(p.SideOf(!zero), mine, HandleBorrow(p, zero, mine, collateral, requested, slot).value.amount)
    ensures var b := HandleBorrow(p, zero, mine, collateral, requested, slot).value;
      var before, after := Owed(mine, p.SideOf(!zero)), Owed(b.mine, b.pair.SideOf(!zero));
      && before + b.amount <= after <= b.limit + 1
      && before + b.amount <= b.limit
      && (requested == U64_MAX ==> before + b.amount == b.limit)
  {
    var b := HandleBorrow(p, zero, mine, collateral, requested, slot).value;
    DebtOfIsOwed(mine, p.SideOf(!zero));
    BorrowNeverFavoursBorrower(p.SideOf(!zero), mine, 0, b.amount);
    BorrowCostsAtMostOneUnit(p.SideOf(!zero), mine, b.amount);
  }

  /** a / m gains at least two units from an addend of twice m. */
  lemma TwoSteps(a: nat, b: nat, m: nat)
    requires m > 0 && b >= 2 * m
    ensures a / m + 2 <= (a + b) / m
  {
    FloorSpec(a, m);
    Distribute(a / m, 2, m);
    FloorAtLeast(a / m + 2, a + b, m);
  }

  /** Two units of buffer survive the rounding of both limits. */
  lemma LimitLeavesTwoUnits(
    rc: u64, rd: u64, collateral: u64, ema: u64, directional: u64, totalDebt: u64, fixedCf: Option<u16>,
    limit: u64, maxCf: u16, cf: u16)
    requires ValidFixedCf(fixedCf) && Comparable(rc, rd, PessimisticPrice(ema, directional), ema) && limit > 0
    requires PessimisticMaxDebt(collateral, ema, directional, rc, rd, totalDebt, fixedCf) == Ok((limit, maxCf, cf))
    requires ImpactValue(rc, rd, ema, directional, collateral).Ok?
    requires limit >= 40 || ImpactValue(rc, rd, ema, directional, collateral).value * (cf - maxCf) >= 2 * BPS
    requires Construct(rc, rd, ema, ema).Ok?
    ensures ImpactValue(rc, rd, ema, ema, collateral).Ok?
    ensures limit + 2 <= ApplyCf(ImpactValue(rc, rd, ema, ema, collateral).value, cf)
  {
    LimitParts(collateral, ema, directional, rc, rd, totalDebt, fixedCf);
    PessimismNeverValuesMore(rc, rd, ema, directional, collateral);
    var seen := ImpactValue(rc, rd, ema, directional, collateral).value;
    var used := ImpactValue(rc, rd, ema, ema, collateral).value;
    if limit >= 40 {
      BufferOfLimit(seen, cf, limit, 2);
    }
    MulMono(0, seen, 0, maxCf);
    Distribute(maxCf, cf - maxCf, seen);
    TwoSteps(seen * maxCf, seen * (cf - maxCf), BPS);
    MulMono(seen, used, cf, cf);
    FloorMono(seen * cf, used * cf, BPS);
  }

  /** End to end: whatever it asked for, a position that has just borrowed cannot be liquidated
      in the same slot, share rounding included, once its limit is at least forty units or the
      buffer is worth two units of debt. */
  lemma BorrowLeavesPositionSafe(
    p: State, zero: bool, mine: u128, collateral: u64, requested: u64, slot: u64, ema: u64, directional: u64, b: Borrowed)
    requires HandleBorrow(p, zero, mine, collateral, requested, slot) == Ok(b)
    requires p.EmaPrice(zero, slot) == Ok(ema) && p.DirectionalPrice(zero, slot) == Ok(directional)
    requires ValidFixedCf(p.fixedCf) && FitToLend(p.SideOf(!zero), mine, b.amount)
    requires Comparable(p.SideOf(zero).reserve, p.SideOf(!zero).reserve, PessimisticPrice(ema, directional), ema)
    requires b.limit >= 40
      || var value := ImpactValue(p.SideOf(zero).reserve, p.SideOf(!zero).reserve, ema, directional, collateral);
         value.Ok? && value.value * (b.cf - b.maxCf) >= 2 * BPS
    ensures b.pair.EmaPrice(zero, slot) == Ok(ema)
    ensures Liquidation(b.pair.SideOf(!zero), b.pair.SideOf(zero), b.mine,
                        Terms(collateral, b.cf, ema, directional, p.fixedCf)).Err?
  {
    BorrowStaysWithinLimit(p, zero, mine, collateral, requested, slot);
    SidesAfterBorrow(p, zero, mine, collateral, requested, slot);
    OneOverLimitIsSafe(b.pair.SideOf(!zero), b.pair.SideOf(zero), b.mine, p.SideOf(!zero).debt,
                       Terms(collateral, b.cf, ema, directional, p.fixedCf), b.limit, b.maxCf);
  }

  lemma SidesAfterBorrow(p: State, zero: bool, mine: u128, collateral: u64, requested: u64, slot: u64)
    requires HandleBorrow(p, zero, mine, collateral, requested, slot).Ok?
    ensures var b := HandleBorrow(p, zero, mine, collateral, requested, slot).value;
      && b.limit > 0 && p.MaxDebtAndCf(zero, collateral, slot) == Ok((b.limit, b.maxCf, b.cf))
      && b.pair.SideOf(zero) == p.SideOf(zero) && b.pair.SideOf(!zero).reserve == p.SideOf(!zero).reserve
      && b.pair.EmaPrice(zero, slot) == p.EmaPrice(zero, slot)
  {
  }

  /** Owing one unit more than the limit is still safe when the buffer is worth two. */
  lemma OneOverLimitIsSafe(lent: Side, posted: Side, mine: u128, totalDebt: u64, t: Terms, limit: u64, maxCf: u16)
    requires ValidFixedCf(t.fixedCf) && limit > 0 && Owed(mine, lent) <= limit + 1
    requires Comparable(posted.reserve, lent.reserve, PessimisticPrice(t.ema, t.directional), t.ema)
    requires PessimisticMaxDebt(t.collateral, t.ema, t.directional, posted.reserve, lent.reserve, totalDebt, t.fixedCf)
          == Ok((limit, maxCf, t.cf))
    requires limit >= 40
      || var value := ImpactValue(posted.reserve, lent.reserve, t.ema, t.directional, t.collateral);
         value.Ok? && value.value * (t.cf - maxCf) >= 2 * BPS
    ensures Liquidation(lent, posted, mine, t).Err?
  {
    var rc, rd := posted.reserve, lent.reserve;
    LimitParts(t.collateral, t.ema, t.directional, rc, rd, totalDebt, t.fixedCf);
    if Construct(rc, rd, t.ema, t.ema).Ok? {
      LimitLeavesTwoUnits(rc, rd, t.collateral, t.ema, t.directional, totalDebt, t.fixedCf, limit, maxCf, t.cf);
    }
    SmallDebtIsSafe(lent, posted, mine, t);
  }

  lemma SmallDebtIsSafe(lent: Side, posted: Side, mine: u128, t: Terms)
    requires Construct(posted.reserve, lent.reserve, t.ema, t.ema).Ok? ==>
      && var value := ImpactValue(posted.reserve, lent.reserve, t.ema, t.ema, t.collateral);
      value.Ok? && Owed(mine, lent) < ApplyCf(value.value, t.cf)
    ensures Liquidation(lent, posted, mine, t).Err?
  {
    if DebtOf(mine, lent.debt, lent.shares).Ok? {
      DebtOfIsOwed(mine, lent);
    }
  }
}
