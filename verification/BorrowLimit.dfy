/** The pessimistic borrow limit of utils/gamm_math.rs and the liquidation tests it is
    designed against. */
module BorrowLimit {
  import opened Words
  import opened Nonlinear
  import opened Kernels
  import opened Curve
  import opened VirtualReserves
  import opened Manipulation

  function UtilizedCollateral(totalDebt: u64, rc: u64, rd: u64, directional: u64, ema: u64): Result<u64> {
    var reserves :- Construct(rc, rd, ema, directional);
    AmountIn(reserves.0, reserves.1, totalDebt)
  }

  function MaxAllowedTotalDebt(utilized: u64, user: u64, rc: u64, rd: u64, directional: u64, ema: u64): Result<u64> {
    var reserves :- Construct(rc, rd, ema, directional);
    var total :- OkOr(CheckedAdd64(utilized, user), Overflow);
    AmountOut(reserves.0, reserves.1, total)
  }

  /** Room the curve leaves for one more user, as a fraction of the collateral's own value.
      The last step is the program's `as u64`. */
  function DynamicCf(userMaxDebt: u64, value: u64): u64 {
    match CheckedDiv(SaturatingMul(userMaxDebt, BPS), value)
    case None => 0
    case Some(q) => AsU64(q)
  }

  /** The fixed factor, shrunk when the directional average is below the symmetric one. */
  function FixedLiquidationCf(fixedCf: u16, ema: u64, directional: u64): u16
    requires ema > 0
  {
    Max(Min(fixedCf, directional * fixedCf / ema), 100)
  }

  function MaxCf(liquidationCf: u16): u16 {
    liquidationCf * (BPS - LTV_BUFFER_BPS) / BPS
  }

  function ApplyCf(value: u64, cf: u16): u128 {
    MulMono(value, U64_MAX, cf, 0xFFFF);
    FloorAtLeast(0, value * cf, BPS);
    value * cf / BPS
  }

  function LiquidationCf(
    collateral: u64, value: u64, ema: u64, directional: u64,
    rc: u64, rd: u64, totalDebt: u64, fixedCf: Option<u16>): Result<u16>
    requires ema > 0
  {
    match fixedCf
    case Some(cf) => Ok(FixedLiquidationCf(cf, ema, directional))
    case None =>
      var utilized :- UtilizedCollateral(totalDebt, rc, rd, directional, ema);
      var allowed :- MaxAllowedTotalDebt(utilized, collateral, rc, rd, directional, ema);
      Ok(Min(DynamicCf(SaturatingSub64(allowed, totalDebt), value), MAX_COLLATERAL_FACTOR_BPS))
  }

  /** (borrow limit, maximum factor, liquidation factor) */
  function PessimisticMaxDebt(
    collateral: u64, ema: u64, directional: u64,
    rc: u64, rd: u64, totalDebt: u64, fixedCf: Option<u16>): Result<(u64, u16, u16)>
  {
    if collateral == 0 || ema == 0 || directional == 0 then Ok((0, 0, 0))
    else
      var value :- ImpactValue(rc, rd, ema, directional, collateral);
      if fixedCf.None? && rd == 0 then Ok((0, 0, 0))
      else
        var cf :- LiquidationCf(collateral, value, ema, directional, rc, rd, totalDebt, fixedCf);
        ApplyCfMono(value, MaxCf(cf), 0xFFFF);
        Ok((Min(ApplyCf(value, MaxCf(cf)), U64_MAX), MaxCf(cf), cf))
  }

  lemma ApplyCfMono(value: u64, a: u16, b: u16)
    requires a <= b
    ensures 0 <= ApplyCf(value, a) <= ApplyCf(value, b)
  {
    MulMono(value, value, a, b);
    FloorMono(value * a, value * b, BPS);
  }

  lemma MaxCfBelow(cf: u16)
    ensures MaxCf(cf) <= cf
    ensures cf > 0 ==> MaxCf(cf) < cf
  {
  }

  // ---------------------------------------------------------------- borrow against liquidation

  /** The liquidation test of the view: pessimistic price, debt at or above the limit. */
  predicate ViewLiquidatable(
    debt: u64, collateral: u64, rc: u64, rd: u64, ema: u64, directional: u64, cf: u16)
  {
    if debt == 0 || collateral == 0 then false
    else
      var reserves := match Construct(rc, rd, ema, directional)
                      case Ok(v) => v
                      case Err(_) => (rc, rd);
      var value := match AmountOut(reserves.0, reserves.1, collateral)
                   case Ok(v) => v
                   case Err(_) => 0;
      debt >= ApplyCf(value, cf)
  }

  /** The liquidation test of the handler: same limit, but valued at the symmetric average. */
  function HandlerLiquidatable(
    debt: u64, collateral: u64, rc: u64, rd: u64, ema: u64, cf: u16): Result<bool>
  {
    var value :- ImpactValue(rc, rd, ema, ema, collateral);
    Ok(debt >= ApplyCf(value, cf))
  }

  /** The values behind a non-zero limit. */
  lemma LimitParts(
    collateral: u64, ema: u64, directional: u64,
    rc: u64, rd: u64, totalDebt: u64, fixedCf: Option<u16>)
    requires PessimisticMaxDebt(collateral, ema, directional, rc, rd, totalDebt, fixedCf).Ok?
    ensures var (limit, maxCf, cf) := PessimisticMaxDebt(collateral, ema, directional, rc, rd, totalDebt, fixedCf).value;
      limit > 0 ==>
        && collateral > 0 && ema > 0 && directional > 0
        && ImpactValue(rc, rd, ema, directional, collateral).Ok?
        && var value := ImpactValue(rc, rd, ema, directional, collateral).value;
        && maxCf == MaxCf(cf)
        && LiquidationCf(collateral, value, ema, directional, rc, rd, totalDebt, fixedCf) == Ok(cf)
        && limit == Min(ApplyCf(value, maxCf), U64_MAX)
  {
  }

  /** The pair initialiser admits only fixed factors up to 100 %. */
  predicate ValidFixedCf(fixedCf: Option<u16>) {
    fixedCf.Some? ==> 100 <= fixedCf.value <= BPS
  }

  lemma FactorsStayBelowOne(
    collateral: u64, value: u64, ema: u64, directional: u64,
    rc: u64, rd: u64, totalDebt: u64, fixedCf: Option<u16>)
    requires ema > 0 && ValidFixedCf(fixedCf)
    ensures var cf := LiquidationCf(collateral, value, ema, directional, rc, rd, totalDebt, fixedCf);
      cf.Ok? ==> cf.value <= BPS
  {
  }

  lemma ApplyCfBelowValue(value: u64, cf: u16)
    requires cf <= BPS
    ensures ApplyCf(value, cf) <= value
  {
    MulMono(value, value, cf, BPS);
    FloorMono(value * cf, value * BPS, BPS);
  }

  /** On both the fixed and the dynamic path, for every pair state and every collateral, the
      borrow limit never exceeds the liquidation limit at the same prices. */
  lemma BorrowLimitWithinLiquidationLimit(
    collateral: u64, ema: u64, directional: u64,
    rc: u64, rd: u64, totalDebt: u64, fixedCf: Option<u16>)
    requires PessimisticMaxDebt(collateral, ema, directional, rc, rd, totalDebt, fixedCf).Ok?
    ensures var (limit, maxCf, cf) := PessimisticMaxDebt(collateral, ema, directional, rc, rd, totalDebt, fixedCf).value;
      limit > 0 ==>
        && ImpactValue(rc, rd, ema, directional, collateral).Ok?
        && limit <= ApplyCf(ImpactValue(rc, rd, ema, directional, collateral).value, cf)
  {
    LimitParts(collateral, ema, directional, rc, rd, totalDebt, fixedCf);
    var (limit, maxCf, cf) := PessimisticMaxDebt(collateral, ema, directional, rc, rd, totalDebt, fixedCf).value;
    if limit > 0 {
      MaxCfBelow(cf);
      ApplyCfMono(ImpactValue(rc, rd, ema, directional, collateral).value, maxCf, cf);
    }
  }

  /** a / m is strictly below (a + b) / m exactly when the remainder of a overflows. */
  lemma FloorStepsIff(a: nat, b: nat, m: nat)
    requires m > 0
    ensures a / m < (a + b) / m <==> a % m + b >= m
  {
    FloorAtLeast(a / m + 1, a + b, m);
    Distribute(a / m, 1, m);
    assert a == (a / m) * m + a % m;
  }

  /** Borrowing the whole limit leaves the position outside the liquidation test of the view
      if and only if the five percent buffer survives the two roundings. */
  lemma FullBorrowIsSafeIff(
    collateral: u64, ema: u64, directional: u64,
    rc: u64, rd: u64, totalDebt: u64, fixedCf: Option<u16>)
    requires ValidFixedCf(fixedCf)
    requires PessimisticMaxDebt(collateral, ema, directional, rc, rd, totalDebt, fixedCf).Ok?
    ensures var (limit, maxCf, cf) := PessimisticMaxDebt(collateral, ema, directional, rc, rd, totalDebt, fixedCf).value;
      limit > 0 ==>
        && maxCf <= cf
        && ImpactValue(rc, rd, ema, directional, collateral).Ok?
        && var value := ImpactValue(rc, rd, ema, directional, collateral).value;
        var room := value * (cf - maxCf);
        && (!ViewLiquidatable(limit, collateral, rc, rd, ema, directional, cf) <==> (value * maxCf) % BPS + room >= BPS)
        && (room >= BPS ==> !ViewLiquidatable(limit, collateral, rc, rd, ema, directional, cf))
  {
    LimitParts(collateral, ema, directional, rc, rd, totalDebt, fixedCf);
    var (limit, maxCf, cf) := PessimisticMaxDebt(collateral, ema, directional, rc, rd, totalDebt, fixedCf).value;
    if limit > 0 {
      var value := ImpactValue(rc, rd, ema, directional, collateral).value;
      FactorsStayBelowOne(collateral, value, ema, directional, rc, rd, totalDebt, fixedCf);
      MaxCfBelow(cf);
      ApplyCfBelowValue(value, maxCf);
      MulMono(0, value, 0, maxCf);
      MulMono(0, value, 0, cf - maxCf);
      Distribute(maxCf, cf - maxCf, value);
      FloorStepsIff(value * maxCf, value * (cf - maxCf), BPS);
    }
  }

  /** A limit of at least twenty units is safe, whatever the factors: the buffer is then worth a
      whole unit. */
  lemma FullBorrowOfTwentyIsSafe(
    collateral: u64, ema: u64, directional: u64,
    rc: u64, rd: u64, totalDebt: u64, fixedCf: Option<u16>)
    requires ValidFixedCf(fixedCf)
    requires PessimisticMaxDebt(collateral, ema, directional, rc, rd, totalDebt, fixedCf).Ok?
    ensures var (limit, maxCf, cf) := PessimisticMaxDebt(collateral, ema, directional, rc, rd, totalDebt, fixedCf).value;
      limit >= 20 ==> !ViewLiquidatable(limit, collateral, rc, rd, ema, directional, cf)
  {
    LimitParts(collateral, ema, directional, rc, rd, totalDebt, fixedCf);
    FullBorrowIsSafeIff(collateral, ema, directional, rc, rd, totalDebt, fixedCf);
    var (limit, maxCf, cf) := PessimisticMaxDebt(collateral, ema, directional, rc, rd, totalDebt, fixedCf).value;
    if limit >= 20 {
      BufferOfLimit(ImpactValue(rc, rd, ema, directional, collateral).value, cf, limit, 1);
    }
  }

  /** A limit of 20 * n units leaves a buffer worth n units. */
  lemma BufferOfLimit(value: u64, cf: u16, limit: nat, n: nat)
    requires 20 * n <= limit <= ApplyCf(value, MaxCf(cf))
    ensures value * (cf - MaxCf(cf)) >= n * BPS
  {
    var m := MaxCf(cf);
    FloorSpec(value * m, BPS);
    assert m <= 19 * (cf - m);
    MulMono(value, value, m, 19 * (cf - m));
    Associate(value, 19, cf - m);
  }

  /** The handler values collateral at the symmetric average alone, so a position safe in the
      view is not liquidated by the handler either, as long as the two prices are comparable. */
  lemma SafeInViewIsSafeInHandler(
    debt: u64, collateral: u64, rc: u64, rd: u64, ema: u64, directional: u64, cf: u16)
    requires directional > 0 && collateral > 0 && debt > 0
    requires Comparable(rc, rd, PessimisticPrice(ema, directional), ema)
    requires Construct(rc, rd, ema, directional).Ok?
    requires !ViewLiquidatable(debt, collateral, rc, rd, ema, directional, cf)
    ensures HandlerLiquidatable(debt, collateral, rc, rd, ema, cf) != Ok(true)
    ensures Construct(rc, rd, ema, ema).Ok? ==> HandlerLiquidatable(debt, collateral, rc, rd, ema, cf) == Ok(false)
  {
    if Construct(rc, rd, ema, ema).Ok? {
      PessimismNeverValuesMore(rc, rd, ema, directional, collateral);
      var seen := ImpactValue(rc, rd, ema, directional, collateral).value;
      var used := ImpactValue(rc, rd, ema, ema, collateral).value;
      MulMono(seen, used, cf, cf);
      FloorMono(seen * cf, used * cf, BPS);
    }
  }

  /** Pushing the spot up along the curve gains a borrower nothing: with the directional average
      at or above the symmetric one the whole limit, factors and failures included, is what it
      is at the undisturbed reserves, whenever both round alike. */
  lemma InflatingSpotGainsNothing(
    collateral: u64, ema: u64, directional: u64,
    rc: u64, rd: u64, rc': u64, rd': u64, totalDebt: u64, fixedCf: Option<u16>)
    requires Product(rc, rd) == Product(rc', rd') && ema <= directional
    requires rc >= MIN_LIQUIDITY && rd >= MIN_LIQUIDITY && rc' >= MIN_LIQUIDITY && rd' >= MIN_LIQUIDITY
    requires ema > 0 ==> RoundAlike(rc, rd, rc', rd', ema)
    ensures PessimisticMaxDebt(collateral, ema, directional, rc', rd', totalDebt, fixedCf)
         == PessimisticMaxDebt(collateral, ema, ema, rc, rd, totalDebt, fixedCf)
  {
    if ema > 0 {
      EqualKReserves(rc, rd, rc', rd', ema);
      assert Construct(rc', rd', ema, directional) == Construct(rc, rd, ema, ema);
      if fixedCf.Some? {
        UnshrunkFactor(fixedCf.value, ema, directional);
        UnshrunkFactor(fixedCf.value, ema, ema);
      }
    }
  }

  /** Whatever the reserves, and so after any swaps whatever: while k * NAD fits 128 bits, no
      limit exceeds the collateral at the lower of its two average prices. */
  lemma LimitBelowPrice(
    collateral: u64, ema: u64, directional: u64,
    rc: u64, rd: u64, totalDebt: u64, fixedCf: Option<u16>)
    requires Product(rc, rd) * NAD <= U128_MAX && ValidFixedCf(fixedCf)
    requires PessimisticMaxDebt(collateral, ema, directional, rc, rd, totalDebt, fixedCf).Ok?
    ensures PessimisticMaxDebt(collateral, ema, directional, rc, rd, totalDebt, fixedCf).value.0 * NAD
         <= collateral * PessimisticPrice(ema, directional)
  {
    LimitParts(collateral, ema, directional, rc, rd, totalDebt, fixedCf);
    var (limit, maxCf, cf) := PessimisticMaxDebt(collateral, ema, directional, rc, rd, totalDebt, fixedCf).value;
    if limit > 0 {
      var value := ImpactValue(rc, rd, ema, directional, collateral).value;
      FactorsStayBelowOne(collateral, value, ema, directional, rc, rd, totalDebt, fixedCf);
      ApplyCfBelowValue(value, maxCf);
      ValueBelowPrice(rc, rd, ema, directional, collateral);
      MulMono(limit, value, NAD, NAD);
    } else {
      MulMono(0, collateral, 0, PessimisticPrice(ema, directional));
    }
  }

  lemma UnshrunkFactor(fixedCf: u16, ema: u64, directional: u64)
    requires 0 < ema <= directional
    ensures FixedLiquidationCf(fixedCf, ema, directional) == Max(fixedCf, 100)
  {
    MulMono(ema, directional, fixedCf, fixedCf);
    FloorAtLeast(fixedCf, directional * fixedCf, ema);
  }

  // ---------------------------------------------------------------- a pool for the witnesses

  /** A pool of a million units a side at price one has itself as virtual reserves. */
  lemma MillionPool()
    ensures Construct(1_000_000, 1_000_000, NAD, NAD) == Ok((1_000_000, 1_000_000))
  {
    SquarePool(1_000_000);
  }

  /** At price one the virtual reserves of a balanced pool are its reserves. */
  lemma SquarePool(r: u64)
    requires MIN_LIQUIDITY <= r <= 1_000_000
    ensures Construct(r, r, NAD, NAD) == Ok((r, r))
  {
    MulMono(r, 1_000_000, r, 1_000_000);
    DirectValue(r, r, NAD);
    assert Product(r, r) * NAD / NAD == Product(r, r);
    SqrtIsUnique(r, r * r);
  }

  /** The dynamic limit from the values of its parts. */
  lemma DynamicLimitFrom(
    collateral: u64, ema: u64, directional: u64, rc: u64, rd: u64, totalDebt: u64,
    x: u64, y: u64, value: u64, utilized: u64, allowed: u64, cf: u16)
    requires collateral > 0 && ema > 0 && directional > 0 && rd > 0
    requires Construct(rc, rd, ema, directional) == Ok((x, y))
    requires AmountOut(x, y, collateral) == Ok(value) && AmountIn(x, y, totalDebt) == Ok(utilized)
    requires utilized + collateral <= U64_MAX && AmountOut(x, y, utilized + collateral) == Ok(allowed)
    requires cf == Min(DynamicCf(SaturatingSub64(allowed, totalDebt), value), MAX_COLLATERAL_FACTOR_BPS)
    ensures PessimisticMaxDebt(collateral, ema, directional, rc, rd, totalDebt, None)
         == Ok((Min(ApplyCf(value, MaxCf(cf)), U64_MAX), MaxCf(cf), cf))
  {
  }

  /** The documented promise that a full borrow is never at once liquidatable fails for dust:
      ten units of collateral against a million-unit pool. */
  lemma DustBorrowIsLiquidatableAtOnce()
    ensures PessimisticMaxDebt(10, NAD, NAD, 1_000_000, 1_000_000, 0, None) == Ok((7, 8075, 8500))
    ensures ViewLiquidatable(7, 10, 1_000_000, 1_000_000, NAD, NAD, 8500)
  {
    MillionPool();
    DustQuotes(1_000_000, 10);
    DustBorrow(1_000_000, 10, NAD);
  }

  lemma DustBorrow(r: u64, c: u64, price: u64)
    requires r > 0 && c > 0 && price > 0 && Construct(r, r, price, price) == Ok((r, r))
    requires AmountOut(r, r, c) == Ok(9) && AmountIn(r, r, 0) == Ok(0)
    ensures PessimisticMaxDebt(c, price, price, r, r, 0, None) == Ok((7, 8075, 8500))
    ensures ViewLiquidatable(7, c, r, r, price, price, 8500)
  {
    DustFactors();
    DynamicLimitFrom(c, price, price, r, r, 0, r, r, 9, 0, 9, 8500);
    ViewTestFrom(7, c, r, r, price, price, 8500, r, r, 9);
  }

  lemma ViewTestFrom(
    debt: u64, collateral: u64, rc: u64, rd: u64, ema: u64, directional: u64, cf: u16, x: u64, y: u64, value: u64)
    requires debt > 0 && collateral > 0
    requires Construct(rc, rd, ema, directional) == Ok((x, y)) && AmountOut(x, y, collateral) == Ok(value)
    ensures ViewLiquidatable(debt, collateral, rc, rd, ema, directional, cf) <==> debt >= ApplyCf(value, cf)
  {
  }

  lemma DustFactors()
    ensures DynamicCf(9, 9) == 10_000 && MaxCf(8500) == 8075
    ensures ApplyCf(9, 8075) == 7 && ApplyCf(9, 8500) == 7
  {
  }

  lemma DustQuotes(r: u64, c: u64)
    requires r == 1_000_000 && c == 10
    ensures AmountOut(r, r, c) == Ok(9)
    ensures AmountIn(r, r, 0) == Ok(0)
  {
    AmountOutValue(r, r, c);
    AmountInValue(r, r, 0);
    assert InCeil(r, r, 0) == 0;
    assert OutFloor(r, r, c) == 9;
  }
}
