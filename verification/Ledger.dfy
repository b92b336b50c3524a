/** One token side of the pair: virtual reserve, cash, total debt and total debt shares, and
    what borrowing, repaying and writing off do to it and to one position's shares. */
module Ledger {
  import opened Words
  import opened Nonlinear
  import opened Kernels

  datatype Side = Side(reserve: u64, cash: u64, debt: u64, shares: u128)

  datatype Reason = Repayment | WriteOff(exactShares: u128)

  /** calculate_debt: the position's part of total debt, rounded up. */
  function DebtOf(mine: u128, debt: u64, shares: u128): Result<u64> {
    if shares == 0 then Ok(0)
    else
      var product :- OkOr(CheckedMul(mine, debt), DebtMathOverflow);
      var quotient :- OkOr(CeilDiv(product, shares), DebtShareDivisionOverflow);
      OkOr(ToU64(quotient), DebtShareDivisionOverflow)
  }

  /** Shares minted for a borrow, rounded up; the first borrow sets the scale. */
  function SharesForBorrow(s: Side, amount: u64): Result<u128> {
    if s.shares == 0 then OkOr(CheckedMul(amount, DEBT_SHARE_SCALE), DebtShareMathOverflow)
    else
      var product :- OkOr(CheckedMul(amount, s.shares), DebtShareMathOverflow);
      OkOr(CeilDiv(product, s.debt), DebtShareDivisionOverflow)
  }

  /** increase_debt: the side and the position's shares afterwards. */
  function Increase(s: Side, mine: u128, amount: u64): Result<(Side, u128)> {
    var _ :- Require(amount > 0, AmountZero);
    var minted :- SharesForBorrow(s, amount);
    var (total, held) :=
      if s.shares == 0 then (minted, minted)
      else (SaturatingAdd(s.shares, minted), SaturatingAdd(mine, minted));
    var cash :- OkOr(CheckedSub64(s.cash, amount), CashReserveUnderflow);
    Ok((Side(s.reserve, cash, SaturatingAdd64(s.debt, amount), total), held))
  }

  /** Shares burned: given for a write-off, rounded down for a repayment, never more than held. */
  function SharesToBurn(s: Side, mine: u128, amount: u64, reason: Reason): Result<u128> {
    match reason
    case WriteOff(exact) => Ok(Min(exact, mine))
    case Repayment =>
      var product :- OkOr(CheckedMul(amount, s.shares), DebtShareMathOverflow);
      var quotient :- OkOr(CheckedDiv(product, s.debt), DebtShareDivisionOverflow);
      Ok(Min(quotient, mine))
  }

  /** decrease_debt: a repayment returns cash, a write-off shrinks the reserve; when no
      shares are left, left-over debt is dropped. */
  function Decrease(s: Side, mine: u128, amount: u64, reason: Reason): Result<(Side, u128)> {
    var burned :- SharesToBurn(s, mine, amount, reason);
    var total := SaturatingSub(s.shares, burned);
    var debt := SaturatingSub64(s.debt, amount);
    var kept := if total == 0 then 0 else debt;
    var next := match reason
                case Repayment => Side(s.reserve, SaturatingAdd64(s.cash, amount), kept, total)
                case WriteOff(_) =>
                  var reserve := match CheckedSub64(s.reserve, amount) case Some(r) => r case None => 1;
                  Side(reserve, s.cash, kept, total);
    Ok((next, SaturatingSub(mine, burned)))
  }

  /** The orphan-debt reset fires: shares run out before the debt does. */
  predicate Orphans(s: Side, mine: u128, amount: u64, reason: Reason) {
    var burned := SharesToBurn(s, mine, amount, reason);
    burned.Ok? && SaturatingSub(s.shares, burned.value) == 0 && SaturatingSub64(s.debt, amount) > 0
  }

  // ---------------------------------------------------------------- values

  /** Nobody holds more shares than exist, so a debt is at most the total and never fails
      for lack of 64 bits. */
  lemma DebtOfValue(mine: u128, debt: u64, shares: u128)
    requires mine <= shares
    ensures shares == 0 ==> DebtOf(mine, debt, shares) == Ok(0)
    ensures shares > 0 && mine * debt + shares - 1 <= U128_MAX ==>
      && DebtOf(mine, debt, shares) == Ok(Ceil(mine * debt, shares))
      && Ceil(mine * debt, shares) <= debt
  {
    if shares > 0 && mine * debt + shares - 1 <= U128_MAX {
      MulMono(0, mine, 0, debt);
      CeilDivIsCeil(mine * debt, shares);
      MulMono(mine, shares, debt, debt);
      CeilAtMost(debt, mine * debt, shares);
    }
  }

  /** A successful reading is the ceiling. */
  lemma DebtOfIsCeil(mine: u128, debt: u64, shares: u128)
    requires shares > 0 && DebtOf(mine, debt, shares).Ok?
    ensures DebtOf(mine, debt, shares).value == Ceil(mine * debt, shares)
  {
    MulMono(0, mine, 0, debt);
  }

  lemma IncreaseValue(s: Side, mine: u128, amount: u64)
    ensures Increase(s, mine, amount).Ok? <==>
      && amount > 0 && amount <= s.cash
      && (s.shares > 0 ==> s.debt > 0 && amount * s.shares + s.debt - 1 <= U128_MAX)
    ensures Increase(s, mine, amount).Ok? ==>
      var minted := if s.shares == 0 then amount * DEBT_SHARE_SCALE else Ceil(amount * s.shares, s.debt);
      && minted >= 0
      && Increase(s, mine, amount).value == (
           Side(s.reserve, s.cash - amount, Min(s.debt + amount, U64_MAX),
                Min(s.shares + minted, U128_MAX)),
           if s.shares == 0 then minted else Min(mine + minted, U128_MAX))
  {
    MulMono(0, amount, 0, s.shares);
    if s.shares > 0 && s.debt > 0 && amount * s.shares + s.debt - 1 <= U128_MAX {
      CeilDivIsCeil(amount * s.shares, s.debt);
      CeilAtMost(-1, amount * s.shares, s.debt);
    }
  }
}
