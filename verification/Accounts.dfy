/** The two accounts the program mutates in place, state/pair.rs and state/user_position.rs.
    Every method computes first and commits last, so a failure leaves both untouched, as a
    reverted transaction does. */
module Accounts {
  import opened Words
  import opened Kernels
  import opened RateModel
  import opened Ledger
  import opened Fairness
  import opened Books
  import opened PairState

  type Pubkey = nat

  datatype VaultBumps = VaultBumps(reserve0: u8, reserve1: u8, collateral0: u8, collateral1: u8)

  class Pair {
    const token0: Pubkey
    const token1: Pubkey
    const lpMint: Pubkey
    var rateModel: Pubkey
    var swapFeeBps: u16
    var halfLife: u64
    var fixedCfBps: Option<u16>
    var reserve0: u64
    var reserve1: u64
    var cashReserve0: u64
    var cashReserve1: u64
    var lastPrice0Ema: Ema
    var lastPrice1Ema: Ema
    var lastUpdate: u64
    var lastRate0: u64
    var lastRate1: u64
    var totalDebt0: u64
    var totalDebt1: u64
    var totalDebt0Shares: u128
    var totalDebt1Shares: u128
    var totalSupply: u64
    var totalCollateral0: u64
    var totalCollateral1: u64
    const token0Decimals: u8
    const token1Decimals: u8
    const paramsHash: seq<u8>
    const version: u8
    const bump: u8
    const vaultBumps: VaultBumps
    var reduceOnly: bool

    /** An empty pair: nothing in either side, no collateral, averages at zero, both rates at the
        model's initial rate, and the minimum liquidity as its total supply. */
    constructor (token0: Pubkey, token1: Pubkey, lpMint: Pubkey, token0Decimals: u8, token1Decimals: u8,
                 rateModel: Pubkey, swapFeeBps: u16, halfLife: u64, fixedCfBps: Option<u16>, currentSlot: u64,
                 paramsHash: seq<u8>, version: u8, bump: u8, vaultBumps: VaultBumps, initialRate: u64)
      requires |paramsHash| == 32
      ensures this.token0 == token0 && this.token1 == token1 && this.lpMint == lpMint && this.rateModel == rateModel
      ensures this.token0Decimals == token0Decimals && this.token1Decimals == token1Decimals
      ensures this.paramsHash == paramsHash && this.version == version
      ensures this.bump == bump && this.vaultBumps == vaultBumps
      ensures Snapshot() == State(Side(0, 0, 0, 0), Side(0, 0, 0, 0), Ema(0, 0), Ema(0, 0), currentSlot,
                                  initialRate, initialRate, halfLife, swapFeeBps, fixedCfBps)
      ensures totalSupply == MIN_LIQUIDITY && totalCollateral0 == totalCollateral1 == 0 && !reduceOnly
    {
      this.token0, this.token1, this.lpMint, this.rateModel := token0, token1, lpMint, rateModel;
      this.token0Decimals, this.token1Decimals := token0Decimals, token1Decimals;
      this.swapFeeBps, this.halfLife, this.fixedCfBps := swapFeeBps, halfLife, fixedCfBps;
      lastUpdate := currentSlot;
      reserve0, reserve1, cashReserve0, cashReserve1 := 0, 0, 0, 0;
      totalSupply := MIN_LIQUIDITY;
      lastPrice0Ema, lastPrice1Ema := Ema(0, 0), Ema(0, 0);
      lastRate0, lastRate1 := initialRate, initialRate;
      totalDebt0, totalDebt1, totalDebt0Shares, totalDebt1Shares := 0, 0, 0, 0;
      totalCollateral0, totalCollateral1 := 0, 0;
      this.paramsHash, this.version, this.bump, this.vaultBumps := paramsHash, version, bump, vaultBumps;
      reduceOnly := false;
    }

    function Snapshot(): State
      reads this
    {
      State(Side(reserve0, cashReserve0, totalDebt0, totalDebt0Shares),
            Side(reserve1, cashReserve1, totalDebt1, totalDebt1Shares),
            lastPrice0Ema, lastPrice1Ema, lastUpdate, lastRate0, lastRate1,
            halfLife, swapFeeBps, fixedCfBps)
    }

    method Update(rateModel: Model, interestBps: u16, currentSlot: u64) returns (r: Result<()>)
      modifies `reserve0, `reserve1, `cashReserve0, `cashReserve1, `lastPrice0Ema, `lastPrice1Ema, `lastUpdate,
               `lastRate0, `lastRate1, `totalDebt0, `totalDebt1
      ensures match PairState.Update(old(Snapshot()), currentSlot, rateModel, interestBps)
              case Ok(next) => r == Ok(()) && Snapshot() == next
              case Err(e) => r == Err(e) && Snapshot() == old(Snapshot())
    {
      var spot0, spot1 := Snapshot().Spot(true), Snapshot().Spot(false);
      var prices0 := Observe(lastPrice0Ema, spot0, currentSlot);
      var prices1 := Observe(lastPrice1Ema, spot1, currentSlot);
      var ema0 :- prices0;
      var ema1 :- prices1;
      if currentSlot > lastUpdate {
        var done := AccrueWindow(rateModel, interestBps, currentSlot);
        var _ :- done;
      }
      lastPrice0Ema, lastPrice1Ema := ema0, ema1;
      return Ok(());
    }

    /** Rates, debts, reserves and cash for the window that ends now. */
    method AccrueWindow(rateModel: Model, interestBps: u16, currentSlot: u64) returns (r: Result<()>)
      modifies `reserve0, `reserve1, `cashReserve0, `cashReserve1, `lastUpdate,
               `lastRate0, `lastRate1, `totalDebt0, `totalDebt1
      ensures match Accrued(old(Snapshot()), currentSlot, rateModel, interestBps)
              case Ok(next) => r == Ok(()) && Snapshot() == next
              case Err(e) => r == Err(e) && Snapshot() == old(Snapshot())
    {
      var before := Snapshot();
      var elapsed :- OkOr(SlotsToMs(before.lastUpdate, currentSlot), Panic);
      var new0 :- Charge(rateModel, before.rate0, elapsed, before.side0, interestBps);
      var new1 :- Charge(rateModel, before.rate1, elapsed, before.side1, interestBps);
      ChargeValue(rateModel, before.rate0, elapsed, before.side0, interestBps);
      ChargeValue(rateModel, before.rate1, elapsed, before.side1, interestBps);
      lastRate0, lastRate1 := new0.0, new1.0;
      totalDebt0, reserve0, cashReserve0 := new0.1.debt, new0.1.reserve, new0.1.cash;
      totalDebt1, reserve1, cashReserve1 := new1.1.debt, new1.1.reserve, new1.1.cash;
      lastUpdate := currentSlot;
      return Ok(());
    }

    /** The averages of one price at a slot, for the spot just read. */
    method Observe(last: Ema, spot: u64, currentSlot: u64) returns (r: Result<Ema>)
      ensures r == UpdateEma(last, lastUpdate, spot, halfLife, currentSlot)
    {
      var directional: u64 := Min(last.directional, spot);
      var symmetric := last.symmetric;
      if currentSlot > lastUpdate {
        symmetric :- ComputeEma(last.symmetric, lastUpdate, spot, halfLife, currentSlot);
        var newEma :- ComputeEma(directional, lastUpdate, spot, DIRECTIONAL_EMA_HALF_LIFE_MS, currentSlot);
        directional := if spot < newEma then spot else newEma;
      }
      return Ok(Ema(symmetric, directional));
    }
  }

  class UserPosition {
    var owner: Pubkey
    var pair: Pubkey
    var collateral0LiquidationCfBps: u16
    var collateral1LiquidationCfBps: u16
    var collateral0: u64
    var collateral1: u64
    var debt0Shares: u128
    var debt1Shares: u128
    var bump: u8

    /** Anchor hands a new account over zeroed; initialize fills in who owns it. */
    constructor (owner: Pubkey, pair: Pubkey, bump: u8)
      ensures this.owner == owner && this.pair == pair && this.bump == bump
      ensures collateral0 == 0 && collateral1 == 0 && debt0Shares == 0 && debt1Shares == 0
      ensures collateral0LiquidationCfBps == 0 && collateral1LiquidationCfBps == 0
    {
      this.owner, this.pair, this.bump := owner, pair, bump;
      collateral0LiquidationCfBps, collateral1LiquidationCfBps := 0, 0;
      collateral0, collateral1, debt0Shares, debt1Shares := 0, 0, 0, 0;
    }

    function SharesOf(zero: bool): u128
      reads this
    {
      if zero then debt0Shares else debt1Shares
    }

    function GetLiquidationCfBps(pair: Pair, debtToken: Pubkey): u16
      reads this
    {
      if debtToken == pair.token1 then collateral0LiquidationCfBps else collateral1LiquidationCfBps
    }

    /** Locks the factor in for the collateral that backs this debt token, and no other. */
    method SetLiquidationCfForDebtToken(debtToken: Pubkey, pair: Pair, liquidationCfBps: u16)
      modifies this`collateral0LiquidationCfBps, this`collateral1LiquidationCfBps
      ensures GetLiquidationCfBps(pair, debtToken) == liquidationCfBps
      ensures forall other: Pubkey ::
        (other == pair.token1) != (debtToken == pair.token1) ==>
          GetLiquidationCfBps(pair, other) == old(GetLiquidationCfBps(pair, other))
    {
      if debtToken == pair.token1 {
        collateral0LiquidationCfBps := liquidationCfBps;
      } else {
        collateral1LiquidationCfBps := liquidationCfBps;
      }
    }

    /** Exactly the ledger's Increase on the side of the debt token; the other side, the other
        shares, prices and rates are untouched, and a failure changes nothing. */
    method IncreaseDebt(pair: Pair, debtToken: Pubkey, amount: u64) returns (r: Result<()>)
      modifies this`debt0Shares, this`debt1Shares, pair`reserve0, pair`reserve1, pair`cashReserve0, pair`cashReserve1,
               pair`totalDebt0, pair`totalDebt1, pair`totalDebt0Shares, pair`totalDebt1Shares
      ensures var zero := debtToken == pair.token0;
        match Increase(old(pair.Snapshot().SideOf(zero)), old(SharesOf(zero)), amount)
        case Ok(next) =>
          && r == Ok(())
          && pair.Snapshot() == old(pair.Snapshot()).WithSide(zero, next.0)
          && SharesOf(zero) == next.1 && SharesOf(!zero) == old(SharesOf(!zero))
        case Err(e) =>
          && r == Err(e)
          && pair.Snapshot() == old(pair.Snapshot())
          && SharesOf(zero) == old(SharesOf(zero)) && SharesOf(!zero) == old(SharesOf(!zero))
    {
      if amount == 0 { return Err(AmountZero); }
      if debtToken == pair.token0 {
        var total, mine: u128 := pair.totalDebt0Shares, debt0Shares;
        if total == 0 {
          var shares: u128 := amount * DEBT_SHARE_SCALE; // 64 + 20 bits: checked_mul cannot fail
          total := shares;
          mine := shares;
        } else {
          var product :- OkOr(CheckedMul(amount, total), DebtShareMathOverflow);
          var shares :- OkOr(CeilDiv(product, pair.totalDebt0), DebtShareDivisionOverflow);
          total := SaturatingAdd(total, shares);
          mine := SaturatingAdd(mine, shares);
        }
        var cash :- OkOr(CheckedSub64(pair.cashReserve0, amount), CashReserveUnderflow);
        pair.totalDebt0Shares := total;
        debt0Shares := mine;
        pair.totalDebt0 := SaturatingAdd64(pair.totalDebt0, amount);
        pair.cashReserve0 := cash;
      } else {
        var total, mine: u128 := pair.totalDebt1Shares, debt1Shares;
        if total == 0 {
          var shares: u128 := amount * DEBT_SHARE_SCALE; // 64 + 20 bits: checked_mul cannot fail
          total := shares;
          mine := shares;
        } else {
          var product :- OkOr(CheckedMul(amount, total), DebtShareMathOverflow);
          var shares :- OkOr(CeilDiv(product, pair.totalDebt1), DebtShareDivisionOverflow);
          total := SaturatingAdd(total, shares);
          mine := SaturatingAdd(mine, shares);
        }
        var cash :- OkOr(CheckedSub64(pair.cashReserve1, amount), CashReserveUnderflow);
        pair.totalDebt1Shares := total;
        debt1Shares := mine;
        pair.totalDebt1 := SaturatingAdd64(pair.totalDebt1, amount);
        pair.cashReserve1 := cash;
      }
      return Ok(());
    }

    /** Exactly the ledger's Decrease on the side of the debt token, with the same frame. */
    method DecreaseDebt(pair: Pair, debtToken: Pubkey, amount: u64, reason: Reason) returns (r: Result<()>)
      modifies this`debt0Shares, this`debt1Shares, pair`reserve0, pair`reserve1, pair`cashReserve0, pair`cashReserve1,
               pair`totalDebt0, pair`totalDebt1, pair`totalDebt0Shares, pair`totalDebt1Shares
      ensures var zero := debtToken == pair.token0;
        && SharesOf(!zero) == old(SharesOf(!zero))
        &&
        match Decrease(old(pair.Snapshot().SideOf(zero)), old(SharesOf(zero)), amount, reason)
        case Ok(next) =>
          && r == Ok(())
          && pair.Snapshot() == old(pair.Snapshot()).WithSide(zero, next.0)
          && SharesOf(zero) == next.1
        case Err(e) =>
          && r == Err(e)
          && pair.Snapshot() == old(pair.Snapshot())
          && SharesOf(zero) == old(SharesOf(zero))
    {
      if debtToken == pair.token0 {
        r := DecreaseDebt0(pair, amount, reason);
      } else {
        r := DecreaseDebt1(pair, amount, reason);
      }
    }

    /** The arm for token0. */
    method DecreaseDebt0(pair: Pair, amount: u64, reason: Reason) returns (r: Result<()>)
      modifies this`debt0Shares, pair`reserve0, pair`cashReserve0, pair`totalDebt0, pair`totalDebt0Shares
      ensures
        match Decrease(old(pair.Snapshot().SideOf(true)), old(SharesOf(true)), amount, reason)
        case Ok(next) =>
          && r == Ok(())
          && pair.Snapshot() == old(pair.Snapshot()).WithSide(true, next.0)
          && SharesOf(true) == next.1
        case Err(e) =>
          && r == Err(e)
          && pair.Snapshot() == old(pair.Snapshot())
          && SharesOf(true) == old(SharesOf(true))
    {
      var shares: u128;
      match reason {
        case WriteOff(exactShares) => shares := exactShares;
        case Repayment =>
          var product :- OkOr(CheckedMul(amount, pair.totalDebt0Shares), DebtShareMathOverflow);
          var quotient :- OkOr(CheckedDiv(product, pair.totalDebt0), DebtShareDivisionOverflow);
          shares := quotient;
      }
      shares := Min(shares, debt0Shares);
      debt0Shares := SaturatingSub(debt0Shares, shares);
      pair.totalDebt0Shares := SaturatingSub(pair.totalDebt0Shares, shares);
      pair.totalDebt0 := SaturatingSub64(pair.totalDebt0, amount);
      match reason {
        case Repayment => pair.cashReserve0 := SaturatingAdd64(pair.cashReserve0, amount);
        case WriteOff(_) => pair.reserve0 := if amount <= pair.reserve0 then pair.reserve0 - amount else 1;
      }
      if pair.totalDebt0Shares == 0 && pair.totalDebt0 > 0 {
        pair.totalDebt0 := 0;
      }
      return Ok(());
    }

    /** The arm for token1. */
    method DecreaseDebt1(pair: Pair, amount: u64, reason: Reason) returns (r: Result<()>)
      modifies this`debt1Shares, pair`reserve1, pair`cashReserve1, pair`totalDebt1, pair`totalDebt1Shares
      ensures
        match Decrease(old(pair.Snapshot().SideOf(false)), old(SharesOf(false)), amount, reason)
        case Ok(next) =>
          && r == Ok(())
          && pair.Snapshot() == old(pair.Snapshot()).WithSide(false, next.0)
          && SharesOf(false) == next.1
        case Err(e) =>
          && r == Err(e)
          && pair.Snapshot() == old(pair.Snapshot())
          && SharesOf(false) == old(SharesOf(false))
    {
      var shares: u128;
      match reason {
        case WriteOff(exactShares) => shares := exactShares;
        case Repayment =>
          var product :- OkOr(CheckedMul(amount, pair.totalDebt1Shares), DebtShareMathOverflow);
          var quotient :- OkOr(CheckedDiv(product, pair.totalDebt1), DebtShareDivisionOverflow);
          shares := quotient;
      }
      shares := Min(shares, debt1Shares);
      debt1Shares := SaturatingSub(debt1Shares, shares);
      pair.totalDebt1Shares := SaturatingSub(pair.totalDebt1Shares, shares);
      pair.totalDebt1 := SaturatingSub64(pair.totalDebt1, amount);
      match reason {
        case Repayment => pair.cashReserve1 := SaturatingAdd64(pair.cashReserve1, amount);
        case WriteOff(_) => pair.reserve1 := if amount <= pair.reserve1 then pair.reserve1 - amount else 1;
      }
      if pair.totalDebt1Shares == 0 && pair.totalDebt1 > 0 {
        pair.totalDebt1 := 0;
      }
      return Ok(());
    }
  }
}
