/** What the borrow limit is: when it is defined, and both factors and the limit itself bracketed
    from the virtual reserves, the averages and the debt, on the fixed and on the dynamic path. */
module LimitValue {
  import opened Words
  import opened Nonlinear
  import opened Kernels
  import opened Curve
  import opened VirtualReserves
  import opened Manipulation
  import opened BorrowLimit
  import R = Room

  /** Without collateral or without a price nothing can be borrowed. */
  lemma NothingToBorrowOn(
    collateral: u64, ema: u64, directional: u64, rc: u64, rd: u64, debt: u64, fixedCf: Option<u16>)
    requires collateral == 0 || ema == 0 || directional == 0
    ensures PessimisticMaxDebt(collateral, ema, directional, rc, rd, debt, fixedCf) == Ok((0, 0, 0))
  {
  }

  /** The quote of the outstanding debt exists and leaves room for the collateral on top. */
  predicate DebtQuoted(x: nat, y: nat, collateral: nat, debt: nat) {
    debt < y && InCeil(x, y, debt) + collateral <= U64_MAX
  }

  /** Otherwise the limit is defined if and only if the virtual reserves are and, on the dynamic
      path, the outstanding debt can be quoted against them. */
  lemma LimitDefinedIff(
    collateral: u64, ema: u64, directional: u64, rc: u64, rd: u64, debt: u64, fixedCf: Option<u16>)
    requires collateral > 0 && ema > 0 && directional > 0
    ensures PessimisticMaxDebt(collateral, ema, directional, rc, rd, debt, fixedCf).Ok? <==>
      && Construct(rc, rd, ema, directional).Ok?
      && (fixedCf.Some? || rd == 0
          || DebtQuoted(Construct(rc, rd, ema, directional).value.0, Construct(rc, rd, ema, directional).value.1,
                        collateral, debt))
  {
    if Construct(rc, rd, ema, directional).Ok? {
      var (x, y) := Construct(rc, rd, ema, directional).value;
      ImpactIsProceeds(rc, rd, ema, directional, collateral);
      AmountInValue(x, y, debt);
      if DebtQuoted(x, y, collateral, debt) {
        AmountOutValue(x, y, InCeil(x, y, debt) + collateral);
      }
    }
  }

  // ---------------------------------------------------------------- factor and limit

  /** q = floor(n / d). */
  predicate Floors(q: int, n: int, d: int) {
    q * d <= n < (q + 1) * d
  }

  /** The usable factor is 95 % of the liquidation factor, and the limit that part of the value. */
  predicate LimitOf(value: nat, limit: nat, maxCf: nat, cf: nat) {
    && Floors(maxCf, cf * 9_500, 10_000)
    && limit * 10_000 <= value * maxCf
    && (limit < U64_MAX ==> value * maxCf < (limit + 1) * 10_000)
  }

  lemma LimitOfValue(value: u64, cf: u16)
    ensures LimitOf(value, Min(ApplyCf(value, MaxCf(cf)), U64_MAX), MaxCf(cf), cf)
  {
    FloorSpec(value * MaxCf(cf), 10_000);
    ApplyCfMono(value, 0, MaxCf(cf));
  }

  // ---------------------------------------------------------------- the fixed path

  /** The fixed factor in the proportion of the averages, rounded down, when the directional one
      is the lower; never below one percent. */
  predicate Shrunk(cf: nat, fixedCf: nat, ema: nat, directional: nat) {
    && cf >= 100
    && (ema <= directional ==> cf == Max(fixedCf, 100))
    && (directional < ema ==>
          && (cf * ema <= directional * fixedCf || cf == 100)
          && directional * fixedCf < (cf + 1) * ema)
  }

  lemma FixedFactorShrinks(fixedCf: u16, ema: u64, directional: u64)
    requires 0 < ema
    ensures Shrunk(FixedLiquidationCf(fixedCf, ema, directional), fixedCf, ema, directional)
  {
    if ema <= directional {
      UnshrunkFactor(fixedCf, ema, directional);
    } else {
      FloorBelowFactor(fixedCf, ema, directional);
      ShrunkBracket(fixedCf, ema, directional, directional * fixedCf / ema);
    }
  }

  lemma FloorBelowFactor(fixedCf: u16, ema: u64, directional: u64)
    requires directional < ema
    ensures 0 <= directional * fixedCf / ema <= fixedCf
  {
    MulMono(directional, ema, fixedCf, fixedCf);
    FloorAtLeast(0, directional * fixedCf, ema);
    FloorAtLeast(fixedCf + 1, directional * fixedCf, ema);
    Distribute(fixedCf, 1, ema);
  }

  lemma ShrunkBracket(fixedCf: u16, ema: u64, directional: u64, q: nat)
    requires directional < ema && q == directional * fixedCf / ema
    ensures Shrunk(Max(q, 100), fixedCf, ema, directional)
  {
    FloorSpec(directional * fixedCf, ema);
    MulMono(q + 1, Max(q, 100) + 1, ema, ema);
  }

  /** A fixed-factor call: the value of the collateral at the virtual reserves, the shrunk factor
      and the limit that follows from them. */
  lemma FixedLimitBracket(
    collateral: u64, ema: u64, directional: u64, rc: u64, rd: u64, debt: u64, fixedCf: u16, x: u64, y: u64)
    requires collateral > 0 && ema > 0 && directional > 0 && Construct(rc, rd, ema, directional) == Ok((x, y))
    ensures PessimisticMaxDebt(collateral, ema, directional, rc, rd, debt, Some(fixedCf)).Ok?
    ensures var (limit, maxCf, cf) := PessimisticMaxDebt(collateral, ema, directional, rc, rd, debt, Some(fixedCf)).value;
      Shrunk(cf, fixedCf, ema, directional) && LimitOf(OutFloor(x, y, collateral), limit, maxCf, cf)
  {
    ImpactIsProceeds(rc, rd, ema, directional, collateral);
    FixedFactorShrinks(fixedCf, ema, directional);
    LimitOfValue(ImpactValue(rc, rd, ema, directional, collateral).value, FixedLiquidationCf(fixedCf, ema, directional));
  }

  /** So a fixed-factor limit is at most 95 % of the value times the factor times the proportion
      of the averages, or 95 % of one percent of the value. */
  lemma FixedLimitAtMost(
    collateral: u64, ema: u64, directional: u64, rc: u64, rd: u64, debt: u64, fixedCf: u16, x: u64, y: u64)
    requires collateral > 0 && 0 < directional < ema && Construct(rc, rd, ema, directional) == Ok((x, y))
    ensures PessimisticMaxDebt(collateral, ema, directional, rc, rd, debt, Some(fixedCf)).Ok?
    ensures var limit := PessimisticMaxDebt(collateral, ema, directional, rc, rd, debt, Some(fixedCf)).value.0;
      (limit * 100_000_000) * ema
        <= (OutFloor(x, y, collateral) * 9_500) * Max(directional * fixedCf, 100 * ema)
  {
    FixedLimitBracket(collateral, ema, directional, rc, rd, debt, fixedCf, x, y);
    var (limit, maxCf, cf) := PessimisticMaxDebt(collateral, ema, directional, rc, rd, debt, Some(fixedCf)).value;
    ChainLimit(OutFloor(x, y, collateral), limit, maxCf, cf, ema, Max(directional * fixedCf, 100 * ema));
  }

  lemma ChainLimit(value: nat, limit: nat, maxCf: nat, cf: nat, ema: nat, top: nat)
    requires limit * 10_000 <= value * maxCf && maxCf * 10_000 <= cf * 9_500 && cf * ema <= top
    ensures (limit * 100_000_000) * ema <= (value * 9_500) * top
  {
    MulMono(value, value, maxCf * 10_000, cf * 9_500);
    Associate(value, maxCf, 10_000);
    Associate(value, cf, 9_500);
    assert limit * 100_000_000 <= (value * 9_500) * cf;
    MulMono(limit * 100_000_000, (value * 9_500) * cf, ema, ema);
    Associate(value * 9_500, cf, ema);
    MulMono(value * 9_500, value * 9_500, cf * ema, top);
  }

  // ---------------------------------------------------------------- the dynamic path

  /** Room on the curve for one more account. */
  function RoomFor(x: nat, y: nat, collateral: nat, debt: nat): int
    requires debt < y && x + collateral > 0
  {
    OutFloor(x, y, InCeil(x, y, debt) + collateral) - debt
  }

  /** The room as a share of the value, at most 85 %; nothing on worthless collateral. */
  predicate Crowded(cf: nat, value: nat, room: int) {
    && cf <= 8_500
    && (value == 0 ==> cf == 0)
    && (value > 0 ==> cf * value <= Max(room, 0) * 10_000)
    && (value > 0 && cf < 8_500 ==> Max(room, 0) * 10_000 < (cf + 1) * value)
  }

  /** One more unit of input buys at most one unit more than the first one did. */
  lemma UnitStep(x: nat, y: nat, a: nat)
    requires x > 0
    ensures OutFloor(x, y, a + 1) <= OutFloor(x, y, a) + OutFloor(x, y, 1) + 1
  {
    var p, q := OutFloor(x, y, a), OutFloor(x, y, 1);
    FloorSpec(a * y, x + a);
    FloorSpec(1 * y, x + 1);
    StepsAdd(x, y, a, p, q);
    FloorAtLeast(p + q + 2, (a + 1) * y, x + (a + 1));
  }

  lemma StepsAdd(x: nat, y: nat, a: nat, p: nat, q: nat)
    requires a * y < (p + 1) * (x + a) && y < (q + 1) * (x + 1)
    ensures (a + 1) * y < (p + q + 2) * (x + (a + 1))
  {
    Distribute(a, 1, y);
    MulMono(p + 1, p + 1, x + a, x + (a + 1));
    MulMono(q + 1, q + 1, x + 1, x + (a + 1));
    Distribute(p + 1, q + 1, x + (a + 1));
  }

  /** Room never exceeds twice the collateral's own value by more than a unit, so its share of
      the value never reaches 64 bits and the cast loses nothing. */
  lemma RoomBelowTwiceValue(x: nat, y: nat, collateral: nat, debt: nat)
    requires debt < y && collateral > 0
    ensures RoomFor(x, y, collateral, debt) <= 2 * OutFloor(x, y, collateral) + 1
  {
    if x == 0 {
      NoInputReserve(y, collateral);
      NoInputReserve(y, InCeil(0, y, debt) + collateral);
    } else {
      var value := OutFloor(x, y, collateral);
      OutFloorBelowReserve(x, y, collateral);
      if debt == 0 {
        CeilAtMost(0, 0, y);
        CeilAtMost(-1, 0, y);
      } else {
        R.RoomGrowsAtMost(x, y, collateral, 0, debt);
        CeilAtMost(0, 0, y);
        CeilAtMost(-1, 0, y);
        UnitStep(x, y, InCeil(x, y, debt) - 1 + collateral);
        OutFloorMonoInput(x, y, 1, collateral);
      }
    }
  }

  lemma NoInputReserve(y: nat, a: nat)
    requires a > 0
    ensures OutFloor(0, y, a) == y
  {
    FloorAtLeast(y, a * y, a);
    FloorAtLeast(y + 1, a * y, a);
    Distribute(y, 1, a);
  }

  lemma DynamicFactor(room: u64, value: u64)
    requires room <= 2 * value + 1
    ensures Crowded(Min(DynamicCf(room, value), 8_500), value, room)
  {
    if value > 0 {
      FloorSpec(room * 10_000, value);
      FloorAtLeast(0, room * 10_000, value);
      FloorAtLeast(40_000, room * 10_000, value);
      var q := room * 10_000 / value;
      assert q < 40_000;
      assert DynamicCf(room, value) == q;
      MulMono(Min(q, 8_500), q, value, value);
    }
  }

  /** A dynamic-factor call: value, share of the room, and the limit that follows from them. */
  lemma DynamicLimitBracket(
    collateral: u64, ema: u64, directional: u64, rc: u64, rd: u64, debt: u64, x: u64, y: u64)
    requires collateral > 0 && ema > 0 && directional > 0 && Construct(rc, rd, ema, directional) == Ok((x, y))
    requires DebtQuoted(x, y, collateral, debt)
    ensures PessimisticMaxDebt(collateral, ema, directional, rc, rd, debt, None).Ok?
    ensures var (limit, maxCf, cf) := PessimisticMaxDebt(collateral, ema, directional, rc, rd, debt, None).value;
      && Crowded(cf, OutFloor(x, y, collateral), RoomFor(x, y, collateral, debt))
      && LimitOf(OutFloor(x, y, collateral), limit, maxCf, cf)
  {
    ImpactIsProceeds(rc, rd, ema, directional, collateral);
    AmountInValue(x, y, debt);
    var total := InCeil(x, y, debt) + collateral;
    AmountOutValue(x, y, total);
    OutFloorBelowReserve(x, y, total);
    RoomBelowTwiceValue(x, y, collateral, debt);
    var value := ImpactValue(rc, rd, ema, directional, collateral).value;
    DynamicFactor(SaturatingSub64(OutFloor(x, y, total), debt), value);
    DynamicParts(collateral, ema, directional, rc, rd, debt, x, y, value, total);
    LimitOfValue(value, Min(DynamicCf(SaturatingSub64(OutFloor(x, y, total), debt), value), 8_500));
  }

  lemma DynamicParts(
    collateral: u64, ema: u64, directional: u64, rc: u64, rd: u64, debt: u64, x: u64, y: u64, value: u64, total: u64)
    requires collateral > 0 && ema > 0 && directional > 0 && Construct(rc, rd, ema, directional) == Ok((x, y))
    requires ImpactValue(rc, rd, ema, directional, collateral) == Ok(value) && rd > 0
    requires debt < y && total == InCeil(x, y, debt) + collateral && AmountIn(x, y, debt) == Ok(InCeil(x, y, debt))
    requires AmountOut(x, y, total) == Ok(OutFloor(x, y, total))
    ensures var cf := Min(DynamicCf(SaturatingSub64(OutFloor(x, y, total), debt), value), 8_500);
      PessimisticMaxDebt(collateral, ema, directional, rc, rd, debt, None)
        == Ok((Min(ApplyCf(value, MaxCf(cf)), U64_MAX), MaxCf(cf), cf))
  {
    var allowed: u64 := OutFloor(x, y, total);
    var cf := Min(DynamicCf(SaturatingSub64(allowed, debt), value), 8_500);
    CfFromRoom(collateral, ema, directional, rc, rd, debt, x, y, value, InCeil(x, y, debt), allowed);
    LimitFromCf(collateral, ema, directional, rc, rd, debt, value, cf);
  }

  lemma CfFromRoom(
    collateral: u64, ema: u64, directional: u64, rc: u64, rd: u64, debt: u64, x: u64, y: u64, value: u64,
    utilized: u64, allowed: u64)
    requires ema > 0 && Construct(rc, rd, ema, directional) == Ok((x, y)) && AmountIn(x, y, debt) == Ok(utilized)
    requires utilized + collateral <= U64_MAX && AmountOut(x, y, utilized + collateral) == Ok(allowed)
    ensures LiquidationCf(collateral, value, ema, directional, rc, rd, debt, None)
         == Ok(Min(DynamicCf(SaturatingSub64(allowed, debt), value), 8_500))
  {
  }

  lemma LimitFromCf(
    collateral: u64, ema: u64, directional: u64, rc: u64, rd: u64, debt: u64, value: u64, cf: u16)
    requires collateral > 0 && ema > 0 && directional > 0 && rd > 0
    requires ImpactValue(rc, rd, ema, directional, collateral) == Ok(value)
    requires LiquidationCf(collateral, value, ema, directional, rc, rd, debt, None) == Ok(cf)
    ensures PessimisticMaxDebt(collateral, ema, directional, rc, rd, debt, None)
         == Ok((Min(ApplyCf(value, MaxCf(cf)), U64_MAX), MaxCf(cf), cf))
  {
  }

  // ---------------------------------------------------------------- the two liquidation tests

  /** The view: nothing owed or nothing posted is safe; otherwise the debt against that part of
      the proceeds, at the virtual reserves or, where they fail, at the real ones. */
  lemma ViewTestIff(debt: u64, collateral: u64, rc: u64, rd: u64, ema: u64, directional: u64, cf: u16)
    ensures debt == 0 || collateral == 0 ==> !ViewLiquidatable(debt, collateral, rc, rd, ema, directional, cf)
    ensures debt > 0 && collateral > 0 ==>
      var reserves := Construct(rc, rd, ema, directional);
      var (x, y) := if reserves.Ok? then reserves.value else (rc, rd);
      ViewLiquidatable(debt, collateral, rc, rd, ema, directional, cf)
        == (OutFloor(x, y, collateral) * cf < (debt + 1) * 10_000)
  {
    if debt > 0 && collateral > 0 {
      var reserves := Construct(rc, rd, ema, directional);
      var (x, y) := if reserves.Ok? then reserves.value else (rc, rd);
      AmountOutValue(x, y, collateral);
      FloorAtLeast(debt + 1, OutFloor(x, y, collateral) * cf, 10_000);
    }
  }

  /** The handler: the same test at the symmetric average, nothing posted included; it fails
      exactly where the virtual reserves do, or where an empty pool meets no collateral. */
  lemma HandlerTestIff(debt: u64, collateral: u64, rc: u64, rd: u64, ema: u64, cf: u16)
    ensures HandlerLiquidatable(debt, collateral, rc, rd, ema, cf).Ok? <==>
      Construct(rc, rd, ema, ema).Ok? && Construct(rc, rd, ema, ema).value.0 + collateral > 0
    ensures HandlerLiquidatable(debt, collateral, rc, rd, ema, cf).Ok? ==>
      var (x, y) := Construct(rc, rd, ema, ema).value;
      HandlerLiquidatable(debt, collateral, rc, rd, ema, cf).value
        == (OutFloor(x, y, collateral) * cf < (debt + 1) * 10_000)
  {
    if Construct(rc, rd, ema, ema).Ok? {
      var (x, y) := Construct(rc, rd, ema, ema).value;
      AmountOutValue(x, y, collateral);
      if x + collateral > 0 {
        FloorAtLeast(debt + 1, OutFloor(x, y, collateral) * cf, 10_000);
      }
    }
  }
}
