/** What moving a pool's reserves can do to the impact value of collateral: along the curve, at
    equal k, and whatever the reserves become. */
module Manipulation {
  import opened Words
  import opened Nonlinear
  import opened Kernels
  import opened Curve
  import opened VirtualReserves

  // ---------------------------------------------------------------- along the curve

  /** At equal k, on the direct path, the spot reserves do not matter, only k and the price. */
  lemma OnlyKMatters(rc: u64, rd: u64, rc': u64, rd': u64, price: u64)
    requires Product(rc, rd) == Product(rc', rd')
    requires Direct(rc, rd, price) && rc' >= MIN_LIQUIDITY && rd' >= MIN_LIQUIDITY
    ensures RoundAlike(rc, rd, rc', rd', price)
    ensures AtPrice(rc', rd', price) == AtPrice(rc, rd, price)
  {
    EqualKReserves(rc, rd, rc', rd', price);
  }

  /** Moving the spot along the curve, with whatever directional price it leaves behind, never
      raises the value of any collateral above its value at the symmetric average, on every path
      on which the new reserves do not round better for the borrower than the old ones. */
  lemma ManipulationIsBounded(rc: u64, rd: u64, rc': u64, rd': u64, ema: u64, directional: u64, collateral: u64)
    requires Product(rc, rd) == Product(rc', rd') && collateral > 0 && ema > 0 && directional > 0
    requires rc >= MIN_LIQUIDITY && rd >= MIN_LIQUIDITY && rc' >= MIN_LIQUIDITY && rd' >= MIN_LIQUIDITY
    requires var price := PessimisticPrice(ema, directional);
      && XRemainder(rc', rd', price) <= XRemainder(rc, rd, price)
      && YRemainder(rc, rd, price) <= YRemainder(rc', rd', price)
      && Comparable(rc, rd, price, ema)
    requires Construct(rc', rd', ema, directional).Ok?
    requires Construct(rc, rd, ema, directional).Ok? && Construct(rc, rd, ema, ema).Ok?
    ensures ImpactValue(rc', rd', ema, directional, collateral).Ok?
    ensures ImpactValue(rc, rd, ema, ema, collateral).Ok?
    ensures ImpactValue(rc', rd', ema, directional, collateral).value
         <= ImpactValue(rc, rd, ema, ema, collateral).value
  {
    var price := PessimisticPrice(ema, directional);
    SquaresAtEqualK(rc, rd, rc', rd', price);
    SquaresAtEqualK(rc', rd', rc, rd, price);
    ISqrtMono(XSquared(rc, rd, price).value, XSquared(rc', rd', price).value);
    ISqrtMono(YSquared(rc', rd', price).value, YSquared(rc, rd, price).value);
    var (x, y) := AtPrice(rc, rd, price).value;
    var (x', y') := AtPrice(rc', rd', price).value;
    AmountOutValue(x, y, collateral);
    AmountOutValue(x', y', collateral);
    OutFloorMonoReserves(x', y', x, y, collateral);
    PessimismNeverValuesMore(rc, rd, ema, directional, collateral);
  }

  /** On the direct path rounding does not depend on the reserves, so nothing more is needed. */
  lemma DirectManipulationIsBounded(
    rc: u64, rd: u64, rc': u64, rd': u64, ema: u64, directional: u64, collateral: u64)
    requires Product(rc, rd) == Product(rc', rd') && collateral > 0
    requires rc' >= MIN_LIQUIDITY && rd' >= MIN_LIQUIDITY
    requires Direct(rc, rd, ema) && directional > 0
    ensures ImpactValue(rc', rd', ema, directional, collateral).Ok?
    ensures ImpactValue(rc, rd, ema, ema, collateral).Ok?
    ensures ImpactValue(rc', rd', ema, directional, collateral).value
         <= ImpactValue(rc, rd, ema, ema, collateral).value
  {
    var price, k := PessimisticPrice(ema, directional), Product(rc, rd);
    MulMono(k, k, price, ema);
    OnlyKMatters(rc, rd, rc', rd', price);
    DirectValue(rc, rd, price);
    DirectValue(rc, rd, ema);
    ManipulationIsBounded(rc, rd, rc', rd', ema, directional, collateral);
  }

  // ---------------------------------------------------------------- whatever the reserves

  /** Whatever the reserves, and so after any swaps whatever: while k * NAD fits 128 bits, no
      collateral is valued above the pessimistic price, impact included. */
  lemma ValueBelowPrice(rc: u64, rd: u64, ema: u64, directional: u64, collateral: u64)
    requires Product(rc, rd) * NAD <= U128_MAX && collateral > 0 && PessimisticPrice(ema, directional) > 0
    requires ImpactValue(rc, rd, ema, directional, collateral).Ok?
    ensures ImpactValue(rc, rd, ema, directional, collateral).value * NAD
         <= collateral * PessimisticPrice(ema, directional)
  {
    var price := PessimisticPrice(ema, directional);
    if rc >= MIN_LIQUIDITY && rd >= MIN_LIQUIDITY {
      var (x, y) := Construct(rc, rd, ema, directional).value;
      ImpactIsProceeds(rc, rd, ema, directional, collateral);
      RootsBelowPrice(rc, rd, price, x, y);
      ProceedsBelowRatio(x, y, collateral, price);
    } else {
      ShallowPoolValuesNothing(rc, rd, ema, directional, collateral);
      MulMono(0, collateral, 0, price);
    }
  }

  lemma ImpactIsProceeds(rc: u64, rd: u64, ema: u64, directional: u64, collateral: u64)
    requires Construct(rc, rd, ema, directional).Ok? && collateral > 0
    ensures var (x, y) := Construct(rc, rd, ema, directional).value;
      ImpactValue(rc, rd, ema, directional, collateral) == Ok(OutFloor(x, y, collateral))
  {
    var (x, y) := Construct(rc, rd, ema, directional).value;
    AmountOutValue(x, y, collateral);
  }

  lemma ShallowPoolValuesNothing(rc: u64, rd: u64, ema: u64, directional: u64, collateral: u64)
    requires (rc < MIN_LIQUIDITY || rd < MIN_LIQUIDITY) && collateral > 0
    ensures ImpactValue(rc, rd, ema, directional, collateral) == Ok(0)
  {
    OutFloorBelowReserve(0, 0, collateral);
    ImpactIsProceeds(rc, rd, ema, directional, collateral);
  }

  predicate RatioBelowPrice(x: nat, y: nat, price: nat) {
    y * NAD <= (x + 1) * price
  }

  lemma RootsBelowPrice(rc: u64, rd: u64, price: u64, x: u64, y: u64)
    requires rc >= MIN_LIQUIDITY && rd >= MIN_LIQUIDITY && price > 0 && AtPrice(rc, rd, price) == Ok((x, y))
    requires Product(rc, rd) * NAD <= U128_MAX
    ensures RatioBelowPrice(x, y, price)
  {
    EveryPathBracket(rc, rd, price);
    RatioBelow(y, x + 1, Product(rc, rd), price, NAD);
  }

  lemma ProceedsBelowRatio(x: nat, y: nat, c: nat, price: nat)
    requires c > 0 && RatioBelowPrice(x, y, price)
    ensures OutFloor(x, y, c) * NAD <= c * price
  {
    var v, s := OutFloor(x, y, c), x + c;
    FloorSpec(c * y, s);
    MulMono(v * s, c * y, NAD, NAD);
    Associate(v, s, NAD);
    Associate(c, y, NAD);
    MulMono(c, c, y * NAD, (x + 1) * price);
    MulMono(x + 1, s, price, price);
    MulMono(c, c, (x + 1) * price, s * price);
    Associate(c, price, s);
    CancelLe(v * NAD, c * price, s);
  }

  /** value * NAD <= collateral * price * sqrt((q + 1) / q), squared. */
  predicate NearPrice(value: nat, collateral: nat, price: nat, q: nat) {
    ((value * NAD) * (value * NAD)) * q <= ((collateral * price) * (collateral * price)) * (q + 1)
  }

  /** On the split path with inner quotient q the bound holds up to the factor (q + 1) / q under
      the root. */
  lemma SplitValueNearPrice(rc: u64, rd: u64, ema: u64, directional: u64, collateral: u64)
    requires Product(rc, rd) * NAD > U128_MAX && collateral > 0 && PessimisticPrice(ema, directional) > 0
    requires ImpactValue(rc, rd, ema, directional, collateral).Ok?
    ensures var price := PessimisticPrice(ema, directional);
      var q, v := rc * NAD / price, ImpactValue(rc, rd, ema, directional, collateral).value;
      q >= 1 && NearPrice(v, collateral, price, q)
  {
    var price := PessimisticPrice(ema, directional);
    var q := rc * NAD / price;
    QuotientPositive(rc, rd, price);
    if rc >= MIN_LIQUIDITY && rd >= MIN_LIQUIDITY {
      var (x, y) := Construct(rc, rd, ema, directional).value;
      ImpactIsProceeds(rc, rd, ema, directional, collateral);
      SplitRoots(rc, rd, price, q, x, y);
      SquaredProceeds(x, y, collateral, price, q);
    } else {
      ShallowPoolValuesNothing(rc, rd, ema, directional, collateral);
      WorthlessIsNear(collateral, price, q);
    }
  }

  lemma WorthlessIsNear(collateral: nat, price: nat, q: nat)
    ensures NearPrice(0, collateral, price, q)
  {
    MulMono(0, collateral * price, 0, collateral * price);
    MulMono(0, (collateral * price) * (collateral * price), 0, q + 1);
  }

  predicate RatioNear(x: nat, y: nat, price: nat, q: nat) {
    ((y * NAD) * (y * NAD)) * q <= (((x + 1) * price) * ((x + 1) * price)) * (q + 1)
  }

  lemma SplitRoots(rc: u64, rd: u64, price: u64, q: nat, x: u64, y: u64)
    requires rc >= MIN_LIQUIDITY && rd >= MIN_LIQUIDITY && price > 0 && AtPrice(rc, rd, price) == Ok((x, y))
    requires Product(rc, rd) * NAD > U128_MAX && q == rc * NAD / price && q >= 1
    ensures RatioNear(x, y, price, q)
  {
    XSquaredValue(rc, rd, price);
    YRootBrackets(rc, rd, price);
    SplitRatio(rc, rd, price, q, x);
    SquaredRatio(y, x + 1, Product(rc, rd), price, q);
  }

  lemma QuotientPositive(rc: u64, rd: u64, price: u64)
    requires price > 0 && Product(rc, rd) * NAD > U128_MAX
    ensures rc * NAD / price >= 1
  {
    Associate(rc, rd, NAD);
    MulMono(rc * NAD, Max(rc * NAD, 0), rd, U64_MAX);
    FloorAtLeast(1, rc * NAD, price);
  }

  /** k * NAD * q < (x + 1)^2 * P * (q + 1) for the root x of q * rd. */
  lemma SplitRatio(rc: u64, rd: u64, price: u64, q: nat, x: nat)
    requires price > 0 && q == rc * NAD / price && q >= 1 && IsSqrt(x, q * rd)
    ensures (Product(rc, rd) * NAD) * q <= ((x + 1) * (x + 1)) * (price * (q + 1))
  {
    FloorSpec(rc * NAD, price);
    MulMono(rc * NAD, (q + 1) * price, rd, rd);
    Associate(rc, rd, NAD);
    MulMono((rc * NAD) * rd, ((q + 1) * price) * rd, q, q);
    MulMono(q * rd, (x + 1) * (x + 1), price * (q + 1), price * (q + 1));
    assert (((q + 1) * price) * rd) * q == (q * rd) * (price * (q + 1)) by {
      Associate((q + 1) * price, rd, q);
    }
  }

  lemma SquaredRatio(y: nat, u: nat, k: nat, price: nat, q: nat)
    requires (y * y) * NAD <= k * price && (k * NAD) * q <= (u * u) * (price * (q + 1))
    ensures ((y * NAD) * (y * NAD)) * q <= ((u * price) * (u * price)) * (q + 1)
  {
    MulMono(0, y, 0, y);
    calc {
      ((y * NAD) * (y * NAD)) * q;
    ==  { Regroup(y, NAD, y, NAD); Associate(y * y, NAD, NAD); Associate((y * y) * NAD, NAD, q); }
      ((y * y) * NAD) * (NAD * q);
    <=  { MulMono((y * y) * NAD, k * price, NAD * q, NAD * q); }
      (k * price) * (NAD * q);
    ==  { Regroup(k, price, NAD, q); Associate(k * NAD, price, q); Associate(k * NAD, q, price); }
      ((k * NAD) * q) * price;
    <=  { MulMono((k * NAD) * q, (u * u) * (price * (q + 1)), price, price); }
      ((u * u) * (price * (q + 1))) * price;
    ==  { Associate(u * u, price * (q + 1), price); Associate(price, q + 1, price); }
      (u * u) * ((price * price) * (q + 1));
    ==  { Regroup(u, price, u, price); Associate(u * u, price * price, q + 1); }
      ((u * price) * (u * price)) * (q + 1);
    }
  }

  lemma SquaredProceeds(x: nat, y: nat, c: nat, price: nat, q: nat)
    requires c > 0 && RatioNear(x, y, price, q)
    ensures NearPrice(OutFloor(x, y, c), c, price, q)
  {
    var v, s := OutFloor(x, y, c), x + c;
    FloorSpec(c * y, s);
    MulMono(v * s, c * y, NAD, NAD);
    // (v * NAD) * s <= c * (y * NAD) and (x + 1) * price <= s * price
    Associate(v, s, NAD);
    Associate(c, y, NAD);
    MulMono(x + 1, s, price, price);
    SquareChain(v * NAD, s, c, y * NAD, (x + 1) * price, price, q);
  }

  lemma SquareChain(a: nat, s: nat, c: nat, b: nat, d: nat, price: nat, q: nat)
    requires s > 0 && a * s <= c * b && d <= s * price
    requires (b * b) * q <= (d * d) * (q + 1)
    ensures (a * a) * q <= ((c * price) * (c * price)) * (q + 1)
  {
    MulMono(0, a, 0, s);
    MulMono(0, c, 0, c);
    MulMono(0, s, 0, s);
    calc {
      ((a * a) * q) * (s * s);
    ==  { Associate(a * a, q, s * s); Regroup(a, s, a, s); }
      ((a * s) * (a * s)) * q;
    <=  { MulMono(a * s, c * b, a * s, c * b); MulMono((a * s) * (a * s), (c * b) * (c * b), q, q); }
      ((c * b) * (c * b)) * q;
    ==  { Regroup(c, b, c, b); Associate(c * c, b * b, q); }
      (c * c) * ((b * b) * q);
    <=  { MulMono(0, b, 0, b); MulMono(0, b * b, 0, q); MulMono(c * c, c * c, (b * b) * q, (d * d) * (q + 1)); }
      (c * c) * ((d * d) * (q + 1));
    <=  { MulMono(d, s * price, d, s * price); MulMono(d * d, (s * price) * (s * price), q + 1, q + 1);
          MulMono(c * c, c * c, (d * d) * (q + 1), ((s * price) * (s * price)) * (q + 1)); }
      (c * c) * (((s * price) * (s * price)) * (q + 1));
    ==  { Regroup(s, price, s, price); Regroup(c, price, c, price);
          Associate(s * s, price * price, q + 1); Associate(c * c, price * price, q + 1);
          Associate(c * c, s * s, (price * price) * (q + 1)); Associate(c * c, (price * price) * (q + 1), s * s); }
      (((c * price) * (c * price)) * (q + 1)) * (s * s);
    }
    MulMono(1, s, 1, s);
    CancelLe((a * a) * q, ((c * price) * (c * price)) * (q + 1), s * s);
  }

  /** On the split path the reserves themselves matter: at the same k and the same price a pool
      twice as deep in the debt token rounds better for the borrower and values the same
      collateral higher. */
  lemma SplitPathSeesReserves()
    ensures Product(20_000_000_000, 18_000_000_000_000_000_000) == Product(40_000_000_000, 9_000_000_000_000_000_000)
    ensures XRemainder(40_000_000_000, 9_000_000_000_000_000_000, 110_000_000_000_000_000)
          < XRemainder(20_000_000_000, 18_000_000_000_000_000_000, 110_000_000_000_000_000)
    ensures ImpactValue(40_000_000_000, 9_000_000_000_000_000_000,
                        110_000_000_000_000_000, 110_000_000_000_000_000, 1_000_000) == Ok(110_094_450_360_774)
    ensures ImpactValue(20_000_000_000, 18_000_000_000_000_000_000,
                        110_000_000_000_000_000, 110_000_000_000_000_000, 1_000_000) == Ok(110_246_406_983_757)
  {
    SplitReserves(20_000_000_000, 18_000_000_000_000_000_000, 110_000_000_000_000_000);
    SplitReserves(40_000_000_000, 9_000_000_000_000_000_000, 110_000_000_000_000_000);
    SplitProceeds();
    ImpactFrom(20_000_000_000, 18_000_000_000_000_000_000, 110_000_000_000_000_000, 110_000_000_000_000_000, 1_000_000,
               57_078_892_771, 6_292_853_089_020_909_281, 110_246_406_983_757);
    ImpactFrom(40_000_000_000, 9_000_000_000_000_000_000, 110_000_000_000_000_000, 110_000_000_000_000_000, 1_000_000,
               57_157_676_649, 6_292_853_089_020_909_281, 110_094_450_360_774);
    SplitRemainders(40_000_000_000, 9_000_000_000_000_000_000, 20_000_000_000, 18_000_000_000_000_000_000,
                    110_000_000_000_000_000);
  }

  lemma SplitProceeds()
    ensures Pays(57_078_892_771, 6_292_853_089_020_909_281, 1_000_000, 110_246_406_983_757)
    ensures Pays(57_157_676_649, 6_292_853_089_020_909_281, 1_000_000, 110_094_450_360_774)
  {
  }

  lemma SplitRemainders(rc: u64, rd: u64, rc': u64, rd': u64, price: u64)
    requires rc == 40_000_000_000 && rd == 9_000_000_000_000_000_000 && price == 110_000_000_000_000_000
    requires rc' == 20_000_000_000 && rd' == 18_000_000_000_000_000_000
    ensures XRemainder(rc, rd, price) < XRemainder(rc', rd', price)
  {
    assert Product(rc, rd) == 360_000_000_000_000_000_000_000_000_000 == Product(rc', rd');
    assert (rc * NAD) % price == 70_000_000_000_000_000 && (rc' * NAD) % price == 90_000_000_000_000_000;
  }

  lemma SplitReserves(rc: u64, rd: u64, price: u64)
    requires price == 110_000_000_000_000_000
    requires || (rc == 20_000_000_000 && rd == 18_000_000_000_000_000_000)
             || (rc == 40_000_000_000 && rd == 9_000_000_000_000_000_000)
    ensures AtPrice(rc, rd, price)
         == Ok((if rc == 20_000_000_000 then 57_078_892_771 else 57_157_676_649, 6_292_853_089_020_909_281))
  {
    XSquaredValue(rc, rd, price);
    YSquaredValue(rc, rd, price);
    var y2 := 39_600_000_000_000_000_000_000_000_000_000_000_000;
    if rc == 20_000_000_000 {
      AtPriceFrom(rc, rd, price, 3_258_000_000_000_000_000_000, y2, 57_078_892_771, 6_292_853_089_020_909_281);
    } else {
      AtPriceFrom(rc, rd, price, 3_267_000_000_000_000_000_000, y2, 57_157_676_649, 6_292_853_089_020_909_281);
    }
  }
}
