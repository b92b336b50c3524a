/** Virtual reserves at the pessimistic price, from utils/gamm_math.rs: both squared
    reserves, the overflow-split fallbacks, the square roots and the 64-bit narrowing. */
module VirtualReserves {
  import opened Words
  import opened Nonlinear
  import opened Kernels
  import opened Curve

  function Product(a: u64, b: u64): u128 {
    MulMono(a, U64_MAX, b, U64_MAX);
    a * b
  }

  /** k * NAD / P, or (Rc * NAD / P) * Rd when k * NAD overflows. */
  function XSquared(rc: u64, rd: u64, price: u64): Result<u128> {
    match CheckedMul(Product(rc, rd), NAD)
    case Some(v) => OkOr(CheckedDiv(v, price), DenominatorOverflow)
    case None =>
      var scaled :- OkOr(CheckedMul(rc, NAD), Overflow);
      var partial :- OkOr(CheckedDiv(scaled, price), DenominatorOverflow);
      OkOr(CheckedMul(partial, rd), Overflow)
  }

  /** k * P / NAD, or (Rd * P / NAD) * Rc when k * P overflows. */
  function YSquared(rc: u64, rd: u64, price: u64): Result<u128> {
    match CheckedMul(Product(rc, rd), price)
    case Some(v) => OkOr(CheckedDiv(v, NAD), DenominatorOverflow)
    case None =>
      var scaled :- OkOr(CheckedMul(rd, price), Overflow);
      var partial :- OkOr(CheckedDiv(scaled, NAD), DenominatorOverflow);
      OkOr(CheckedMul(partial, rc), Overflow)
  }

  function AtPrice(rc: u64, rd: u64, price: u64): Result<(u64, u64)> {
    if rc < MIN_LIQUIDITY || rd < MIN_LIQUIDITY then Ok((0, 0))
    else if price == 0 then Ok((rc, rd))
    else
      var x2 :- XSquared(rc, rd, price);
      var x :- OkOr(ToU64(ISqrt(x2)), Overflow);
      var y2 :- YSquared(rc, rd, price);
      var y :- OkOr(ToU64(ISqrt(y2)), Overflow);
      Ok((x, y))
  }

  function PessimisticPrice(ema: u64, directional: u64): u64 {
    Min(directional, ema)
  }

  function Construct(rc: u64, rd: u64, ema: u64, directional: u64): Result<(u64, u64)> {
    AtPrice(rc, rd, PessimisticPrice(ema, directional))
  }

  /** Both products fit 128 bits, so neither fallback is taken. */
  predicate Direct(rc: u64, rd: u64, price: u64) {
    && rc >= MIN_LIQUIDITY && rd >= MIN_LIQUIDITY && price > 0
    && Product(rc, rd) * NAD <= U128_MAX
    && Product(rc, rd) * price <= U128_MAX
  }

  // ---------------------------------------------------------------- exact failure

  /** The root of a 128-bit number fits 64 bits: the narrowing never fails. */
  lemma RootFits(v: u128)
    ensures ISqrt(v) <= U64_MAX
  {
    SquareLt(ISqrt(v), U64_MAX + 1);
  }

  predicate XFallbackOverflows(rc: u64, rd: u64, price: u64)
    requires price > 0
  {
    Product(rc, rd) * NAD > U128_MAX && (rc * NAD / price) * rd > U128_MAX
  }

  predicate YFallbackOverflows(rc: u64, rd: u64, price: u64) {
    Product(rc, rd) * price > U128_MAX && (rd * price / NAD) * rc > U128_MAX
  }

  lemma XSquaredValue(rc: u64, rd: u64, price: u64)
    requires price > 0
    ensures XSquared(rc, rd, price) ==
      if XFallbackOverflows(rc, rd, price) then Err(Overflow)
      else if Product(rc, rd) * NAD <= U128_MAX then Ok(Product(rc, rd) * NAD / price)
      else Ok((rc * NAD / price) * rd)
  {
    FloorAtLeast(0, rc * NAD, price);
    MulMono(0, rc * NAD / price, 0, rd);
    MulMono(0, Product(rc, rd), NAD, NAD);
  }

  lemma YSquaredValue(rc: u64, rd: u64, price: u64)
    ensures YSquared(rc, rd, price) ==
      if YFallbackOverflows(rc, rd, price) then Err(Overflow)
      else if Product(rc, rd) * price <= U128_MAX then Ok(Product(rc, rd) * price / NAD)
      else Ok((rd * price / NAD) * rc)
  {
    MulMono(rd, U64_MAX, price, U64_MAX);
    MulMono(0, rd * price / NAD, 0, rc);
    MulMono(0, Product(rc, rd), 0, price);
  }

  /** Construction fails exactly when a fallback product overflows. */
  lemma FailsExactlyOnFallbackOverflow(rc: u64, rd: u64, ema: u64, directional: u64)
    ensures var price := PessimisticPrice(ema, directional);
      Construct(rc, rd, ema, directional).Err? <==>
        (&& rc >= MIN_LIQUIDITY && rd >= MIN_LIQUIDITY && price > 0
         && (XFallbackOverflows(rc, rd, price) || YFallbackOverflows(rc, rd, price)))
  {
    var price := PessimisticPrice(ema, directional);
    if price > 0 {
      XSquaredValue(rc, rd, price);
      YSquaredValue(rc, rd, price);
      var x2, y2 := XSquared(rc, rd, price), YSquared(rc, rd, price);
      if x2.Ok? { RootFits(x2.value); }
      if y2.Ok? { RootFits(y2.value); }
    }
  }

  // ---------------------------------------------------------------- exact values

  /** Shallow pools have no virtual reserves, priceless ones their own, and otherwise the lower of
      the two averages counts. */
  lemma ConstructEdges(rc: u64, rd: u64, ema: u64, directional: u64)
    ensures rc < 1_000 || rd < 1_000 ==> Construct(rc, rd, ema, directional) == Ok((0, 0))
    ensures rc >= 1_000 && rd >= 1_000 && (ema == 0 || directional == 0) ==>
      Construct(rc, rd, ema, directional) == Ok((rc, rd))
    ensures ema <= directional ==> Construct(rc, rd, ema, directional) == AtPrice(rc, rd, ema)
    ensures directional <= ema ==> Construct(rc, rd, ema, directional) == AtPrice(rc, rd, directional)
  {
  }

  /** Otherwise they are the integer roots of k * NAD / P and k * P / NAD, each taken directly when
      its product fits 128 bits and through the scaled reserve when it does not. */
  lemma ReservesAreRoots(rc: u64, rd: u64, price: u64, x: u64, y: u64)
    requires rc >= 1_000 && rd >= 1_000 && price > 0 && AtPrice(rc, rd, price) == Ok((x, y))
    ensures var fits := Product(rc, rd) * 1_000_000_000 <= U128_MAX;
      IsSqrt(x, if fits then Product(rc, rd) * 1_000_000_000 / price else (rc * 1_000_000_000 / price) * rd)
    ensures var fits := Product(rc, rd) * price <= U128_MAX;
      IsSqrt(y, if fits then Product(rc, rd) * price / 1_000_000_000 else (rd * price / 1_000_000_000) * rc)
  {
    XSquaredValue(rc, rd, price);
    YSquaredValue(rc, rd, price);
  }

  // ---------------------------------------------------------------- product bound

  /** Either way of computing the square, floor after floor stays below k * NAD / P. */
  lemma XSquaredBelow(rc: u64, rd: u64, price: u64)
    requires price > 0 && XSquared(rc, rd, price).Ok?
    ensures XSquared(rc, rd, price).value * price <= Product(rc, rd) * NAD
  {
    XSquaredValue(rc, rd, price);
    if Product(rc, rd) * NAD <= U128_MAX {
      FloorSpec(Product(rc, rd) * NAD, price);
    } else {
      FallbackBelow(rc * NAD, price, rd);
      assert (rc * NAD) * rd == (rc * rd) * NAD;
    }
  }

  lemma YSquaredBelow(rc: u64, rd: u64, price: u64)
    requires YSquared(rc, rd, price).Ok?
    ensures YSquared(rc, rd, price).value * NAD <= Product(rc, rd) * price
  {
    YSquaredValue(rc, rd, price);
    if Product(rc, rd) * price <= U128_MAX {
      FloorSpec(Product(rc, rd) * price, NAD);
    } else {
      FallbackBelow(rd * price, NAD, rc);
      assert (rd * price) * rc == (rc * rd) * price by { Associate(rd, price, rc); }
    }
  }

  lemma FallbackBelow(n: nat, d: nat, m: nat)
    requires d > 0
    ensures ((n / d) * m) * d <= n * m
  {
    FloorSpec(n, d);
    FloorAtLeast(0, n, d);
    MulMono((n / d) * d, n, m, m);
    Associate(n / d, m, d);
    Associate(n / d, d, m);
  }

  /** Bounds on the two squares multiply to a bound on the product of the roots. */
  lemma RootsBelow(x: nat, y: nat, k: nat, price: nat)
    requires price > 0
    requires (x * x) * price <= k * NAD
    requires (y * y) * NAD <= k * price
    ensures x * y <= k
  {
    MulMono(0, x, 0, x);
    MulMono(0, y, 0, y);
    MulMono((x * x) * price, k * NAD, (y * y) * NAD, k * price);
    CrossProduct(x, y, price, NAD);
    CrossProductK(k, price, NAD);
    CancelLe((x * y) * (x * y), k * k, price * NAD);
    SquareLe(x * y, k);
  }

  lemma CrossProduct(x: int, y: int, p: int, n: int)
    ensures ((x * x) * p) * ((y * y) * n) == ((x * y) * (x * y)) * (p * n)
  {
    Regroup(x * x, p, y * y, n);
    Regroup(x, x, y, y);
  }

  lemma CrossProductK(k: int, p: int, n: int)
    ensures (k * n) * (k * p) == (k * k) * (p * n)
  {
    Regroup(k, n, k, p);
  }

  /** On every path, fallbacks and shortcuts included, X * Y never exceeds k. */
  lemma VirtualProductNeverExceedsK(rc: u64, rd: u64, ema: u64, directional: u64)
    requires Construct(rc, rd, ema, directional).Ok?
    ensures var (x, y) := Construct(rc, rd, ema, directional).value;
      x * y <= Product(rc, rd)
  {
    var price := PessimisticPrice(ema, directional);
    MulMono(0, rc, 0, rd);
    if rc >= MIN_LIQUIDITY && rd >= MIN_LIQUIDITY && price > 0 {
      var x2, y2 := XSquared(rc, rd, price).value, YSquared(rc, rd, price).value;
      var x, y := ISqrt(x2), ISqrt(y2);
      XSquaredBelow(rc, rd, price);
      YSquaredBelow(rc, rd, price);
      MulMono(x * x, x2, price, price);
      MulMono(y * y, y2, NAD, NAD);
      RootsBelow(x, y, Product(rc, rd), price);
    }
  }

  // ---------------------------------------------------------------- every path

  /** What each square loses to rounding: nothing beyond its own floor on the direct path, at
      most one unit of the inner quotient, times the other reserve, on the split path. */
  function XLoss(rc: u64, rd: u64, price: u64): nat {
    MulMono(0, rd, 0, price);
    if Product(rc, rd) * NAD <= U128_MAX then 0 else rd * price
  }

  function YLoss(rc: u64, rd: u64, price: u64): nat {
    if Product(rc, rd) * price <= U128_MAX then 0 else rc * NAD
  }

  /** z^2 * d <= n < (z + 1)^2 * d + loss. */
  predicate Brackets(z: int, d: int, n: int, loss: int) {
    (z * z) * d <= n < ((z + 1) * (z + 1)) * d + loss
  }

  /** On every successful path the roots bracket k * NAD / P and k * P / NAD up to that loss. */
  lemma EveryPathBracket(rc: u64, rd: u64, price: u64)
    requires rc >= MIN_LIQUIDITY && rd >= MIN_LIQUIDITY && price > 0 && AtPrice(rc, rd, price).Ok?
    ensures var (x, y) := AtPrice(rc, rd, price).value;
      && Brackets(x, price, Product(rc, rd) * NAD, XLoss(rc, rd, price))
      && Brackets(y, NAD, Product(rc, rd) * price, YLoss(rc, rd, price))
  {
    XRootBrackets(rc, rd, price);
    YRootBrackets(rc, rd, price);
  }

  lemma XRootBrackets(rc: u64, rd: u64, price: u64)
    requires price > 0 && XSquared(rc, rd, price).Ok?
    ensures Brackets(ISqrt(XSquared(rc, rd, price).value), price, Product(rc, rd) * NAD, XLoss(rc, rd, price))
  {
    XSquaredBelow(rc, rd, price);
    XSquaredAbove(rc, rd, price);
    RootInside(XSquared(rc, rd, price).value, price, Product(rc, rd) * NAD, XLoss(rc, rd, price));
  }

  lemma YRootBrackets(rc: u64, rd: u64, price: u64)
    requires YSquared(rc, rd, price).Ok?
    ensures Brackets(ISqrt(YSquared(rc, rd, price).value), NAD, Product(rc, rd) * price, YLoss(rc, rd, price))
  {
    YSquaredBelow(rc, rd, price);
    YSquaredAbove(rc, rd, price);
    RootInside(YSquared(rc, rd, price).value, NAD, Product(rc, rd) * price, YLoss(rc, rd, price));
  }

  lemma RootInside(v: nat, d: nat, n: nat, loss: nat)
    requires v * d <= n < (v + 1) * d + loss
    ensures Brackets(ISqrt(v), d, n, loss)
  {
    var z := ISqrt(v);
    MulMono(0, z, 0, z);
    SquaresInside(z * z, (z + 1) * (z + 1), v, d, n, loss);
  }

  lemma SquaresInside(below: nat, above: nat, v: nat, d: nat, n: nat, loss: nat)
    requires below <= v < above && v * d <= n < (v + 1) * d + loss
    ensures below * d <= n < above * d + loss
  {
    MulMono(below, v, d, d);
    MulMono(v + 1, above, d, d);
  }

  lemma XSquaredAbove(rc: u64, rd: u64, price: u64)
    requires price > 0 && XSquared(rc, rd, price).Ok?
    ensures Product(rc, rd) * NAD < (XSquared(rc, rd, price).value + 1) * price + XLoss(rc, rd, price)
  {
    XSquaredValue(rc, rd, price);
    if Product(rc, rd) * NAD <= U128_MAX {
      FloorSpec(Product(rc, rd) * NAD, price);
    } else {
      FallbackAbove(rc * NAD, price, rd);
      assert (rc * NAD) * rd == (rc * rd) * NAD;
    }
  }

  lemma YSquaredAbove(rc: u64, rd: u64, price: u64)
    requires YSquared(rc, rd, price).Ok?
    ensures Product(rc, rd) * price < (YSquared(rc, rd, price).value + 1) * NAD + YLoss(rc, rd, price)
  {
    YSquaredValue(rc, rd, price);
    if Product(rc, rd) * price <= U128_MAX {
      FloorSpec(Product(rc, rd) * price, NAD);
    } else {
      MulMono(0, rd, 0, price);
      FallbackAbove(rd * price, NAD, rc);
      assert (rd * price) * rc == (rc * rd) * price by { Associate(rd, price, rc); }
    }
  }

  lemma FallbackAbove(n: nat, d: nat, m: nat)
    requires d > 0
    ensures n * m < ((n / d) * m + 1) * d + m * d
  {
    FloorSpec(n, d);
    FloorAtLeast(0, n, d);
    MulMono(n, (n / d + 1) * d, m, m);
    Distribute(n / d, 1, d);
    Distribute((n / d) * d, d, m);
    Associate(n / d, d, m);
    Associate(n / d, m, d);
    Distribute((n / d) * m, 1, d);
  }

  // ---------------------------------------------------------------- exact squares

  /** What rounding takes from k * NAD on the way to X^2, in units of 1 / P. */
  function XRemainder(rc: u64, rd: u64, price: u64): nat
    requires price > 0
  {
    MulMono(0, rd, 0, (rc * NAD) % price);
    if Product(rc, rd) * NAD <= U128_MAX then (Product(rc, rd) * NAD) % price else rd * ((rc * NAD) % price)
  }

  /** What rounding takes from k * P on the way to Y^2, in units of 1 / NAD. */
  function YRemainder(rc: u64, rd: u64, price: u64): nat {
    MulMono(0, rc, 0, (rd * price) % NAD);
    if Product(rc, rd) * price <= U128_MAX then (Product(rc, rd) * price) % NAD else rc * ((rd * price) % NAD)
  }

  lemma XSquaredExact(rc: u64, rd: u64, price: u64)
    requires price > 0 && XSquared(rc, rd, price).Ok?
    ensures XSquared(rc, rd, price).value * price + XRemainder(rc, rd, price) == Product(rc, rd) * NAD
  {
    XSquaredValue(rc, rd, price);
    if Product(rc, rd) * NAD <= U128_MAX {
      DivMod(Product(rc, rd) * NAD, price);
    } else {
      SplitExact(rc * NAD, price, rd);
      Associate(rc, NAD, rd);
    }
  }

  lemma YSquaredExact(rc: u64, rd: u64, price: u64)
    requires YSquared(rc, rd, price).Ok?
    ensures YSquared(rc, rd, price).value * NAD + YRemainder(rc, rd, price) == Product(rc, rd) * price
  {
    YSquaredValue(rc, rd, price);
    if Product(rc, rd) * price <= U128_MAX {
      DivMod(Product(rc, rd) * price, NAD);
    } else {
      SplitExact(rd * price, NAD, rc);
      Associate(rd, price, rc);
    }
  }

  lemma DivMod(n: int, d: int)
    requires d > 0
    ensures (n / d) * d + n % d == n
  {
  }

  lemma SplitExact(n: int, d: int, m: int)
    requires d > 0
    ensures ((n / d) * m) * d + m * (n % d) == n * m
  {
    DivMod(n, d);
    Distribute((n / d) * d, n % d, m);
    Associate(n / d, d, m);
    Associate(n / d, m, d);
  }

  /** At equal k the squares of two pools are ordered exactly as their remainders are, the other
      way round: which pool's reserves round worse decides, and on the direct path none does. */
  lemma SquaresAtEqualK(rc: u64, rd: u64, rc': u64, rd': u64, price: u64)
    requires price > 0 && Product(rc, rd) == Product(rc', rd')
    requires XSquared(rc, rd, price).Ok? && XSquared(rc', rd', price).Ok?
    requires YSquared(rc, rd, price).Ok? && YSquared(rc', rd', price).Ok?
    ensures XSquared(rc', rd', price).value <= XSquared(rc, rd, price).value <==>
            XRemainder(rc, rd, price) <= XRemainder(rc', rd', price)
    ensures YSquared(rc', rd', price).value <= YSquared(rc, rd, price).value <==>
            YRemainder(rc, rd, price) <= YRemainder(rc', rd', price)
  {
    XSquaredExact(rc, rd, price);
    XSquaredExact(rc', rd', price);
    YSquaredExact(rc, rd, price);
    YSquaredExact(rc', rd', price);
    OrderOfParts(XSquared(rc', rd', price).value, XSquared(rc, rd, price).value, price,
                 XRemainder(rc', rd', price), XRemainder(rc, rd, price));
    OrderOfParts(YSquared(rc', rd', price).value, YSquared(rc, rd, price).value, NAD,
                 YRemainder(rc', rd', price), YRemainder(rc, rd, price));
  }

  lemma OrderOfParts(a: nat, b: nat, d: nat, r: int, s: int)
    requires d > 0 && a * d + r == b * d + s
    ensures a <= b <==> s <= r
  {
    if a <= b {
      MulMono(a, b, d, d);
    } else {
      TimesPositive(b, a, d);
    }
  }

  /** The remainders of two pools at one price. */
  predicate RoundAlike(rc: u64, rd: u64, rc': u64, rd': u64, price: u64)
    requires price > 0
  {
    && XRemainder(rc', rd', price) == XRemainder(rc, rd, price)
    && YRemainder(rc', rd', price) == YRemainder(rc, rd, price)
  }

  /** At equal k both squares agree if and only if both remainders do. */
  lemma SquaresAgreeIff(rc: u64, rd: u64, rc': u64, rd': u64, price: u64)
    requires price > 0 && Product(rc, rd) == Product(rc', rd')
    requires XSquared(rc, rd, price).Ok? && XSquared(rc', rd', price).Ok?
    requires YSquared(rc, rd, price).Ok? && YSquared(rc', rd', price).Ok?
    ensures (XSquared(rc', rd', price) == XSquared(rc, rd, price) && YSquared(rc', rd', price) == YSquared(rc, rd, price))
       <==> RoundAlike(rc, rd, rc', rd', price)
  {
    SquaresAtEqualK(rc, rd, rc', rd', price);
    SquaresAtEqualK(rc', rd', rc, rd, price);
  }

  /** Pools of equal k that round alike have the same virtual reserves, failures included. */
  lemma EqualKReserves(rc: u64, rd: u64, rc': u64, rd': u64, price: u64)
    requires price > 0 && Product(rc, rd) == Product(rc', rd') && RoundAlike(rc, rd, rc', rd', price)
    requires rc >= MIN_LIQUIDITY && rd >= MIN_LIQUIDITY && rc' >= MIN_LIQUIDITY && rd' >= MIN_LIQUIDITY
    ensures AtPrice(rc', rd', price) == AtPrice(rc, rd, price)
  {
    EqualKX(rc, rd, rc', rd', price);
    EqualKY(rc, rd, rc', rd', price);
  }

  lemma EqualKX(rc: u64, rd: u64, rc': u64, rd': u64, price: u64)
    requires price > 0 && Product(rc, rd) == Product(rc', rd')
    requires XRemainder(rc', rd', price) == XRemainder(rc, rd, price)
    ensures XSquared(rc', rd', price) == XSquared(rc, rd, price)
  {
    XSquaredValue(rc, rd, price);
    XSquaredValue(rc', rd', price);
    if Product(rc, rd) * NAD > U128_MAX {
      SplitExact(rc * NAD, price, rd);
      SplitExact(rc' * NAD, price, rd');
      Associate(rc, NAD, rd);
      Associate(rc', NAD, rd');
      SameQuotient((rc * NAD / price) * rd, (rc' * NAD / price) * rd', price);
    }
  }

  lemma EqualKY(rc: u64, rd: u64, rc': u64, rd': u64, price: u64)
    requires Product(rc, rd) == Product(rc', rd')
    requires YRemainder(rc', rd', price) == YRemainder(rc, rd, price)
    ensures YSquared(rc', rd', price) == YSquared(rc, rd, price)
  {
    YSquaredValue(rc, rd, price);
    YSquaredValue(rc', rd', price);
    if Product(rc, rd) * price > U128_MAX {
      SplitExact(rd * price, NAD, rc);
      SplitExact(rd' * price, NAD, rc');
      Associate(rd, price, rc);
      Associate(rd', price, rc');
      SameQuotient((rd * price / NAD) * rc, (rd' * price / NAD) * rc', NAD);
    }
  }

  lemma SameQuotient(a: int, b: int, d: int)
    requires d > 0 && a * d == b * d
    ensures a == b
  {
    CancelLe(a, b, d);
    CancelLe(b, a, d);
  }

  // ---------------------------------------------------------------- direct path

  lemma DirectValue(rc: u64, rd: u64, price: u64)
    requires Direct(rc, rd, price)
    ensures 0 <= Product(rc, rd) * NAD / price <= U128_MAX
    ensures 0 <= Product(rc, rd) * price / NAD <= U128_MAX
    ensures AtPrice(rc, rd, price)
         == Ok((ISqrt(Product(rc, rd) * NAD / price), ISqrt(Product(rc, rd) * price / NAD)))
  {
    var k := Product(rc, rd);
    XSquaredValue(rc, rd, price);
    YSquaredValue(rc, rd, price);
    FloorAntitone(k * NAD, 1, price);
    MulMono(0, k, 0, price);
    RootFits(k * NAD / price);
    RootFits(k * price / NAD);
  }

  /** On the direct path the roots lose less than one unit each: the product brackets k and
      the ratio brackets the price. */
  lemma DirectBracket(rc: u64, rd: u64, ema: u64, directional: u64)
    requires Direct(rc, rd, PessimisticPrice(ema, directional))
    ensures Construct(rc, rd, ema, directional).Ok?
    ensures var (x, y) := Construct(rc, rd, ema, directional).value;
      var price := PessimisticPrice(ema, directional);
      && x * y <= Product(rc, rd) < (x + 1) * (y + 1)
      && y * NAD < (x + 1) * price
      && x * price < (y + 1) * NAD
  {
    var price := PessimisticPrice(ema, directional);
    DirectLosesNothing(rc, rd, price);
    VirtualProductNeverExceedsK(rc, rd, ema, directional);
    EveryPathBracket(rc, rd, price);
    var (x, y) := AtPrice(rc, rd, price).value;
    LosslessBracket(x, y, Product(rc, rd), price);
  }

  lemma DirectLosesNothing(rc: u64, rd: u64, price: u64)
    requires Direct(rc, rd, price)
    ensures AtPrice(rc, rd, price).Ok? && XLoss(rc, rd, price) == 0 && YLoss(rc, rd, price) == 0
  {
    DirectValue(rc, rd, price);
  }

  lemma LosslessBracket(x: nat, y: nat, k: nat, price: nat)
    requires price > 0 && Brackets(x, price, k * NAD, 0) && Brackets(y, NAD, k * price, 0)
    ensures k < (x + 1) * (y + 1) && y * NAD < (x + 1) * price && x * price < (y + 1) * NAD
  {
    RootsAbove(x + 1, y + 1, k, price);
    RatioBelow(y, x + 1, k, price, NAD);
    RatioBelow(x, y + 1, k, NAD, price);
  }

  lemma RootsAbove(x: nat, y: nat, k: nat, price: nat)
    requires price > 0
    requires k * NAD < (x * x) * price
    requires k * price < (y * y) * NAD
    ensures k < x * y
  {
    MulMono(0, k, 0, price);
    MulMono(k * NAD, (x * x) * price - 1, k * price, (y * y) * NAD - 1);
    var a, b := (x * x) * price, (y * y) * NAD;
    assert (a - 1) * (b - 1) < a * b by {
      DistributeMinus(a, 1, b - 1);
      DistributeMinus(b, 1, a);
    }
    CrossProduct(x, y, price, NAD);
    CrossProductK(k, price, NAD);
    MulMono(0, price, 0, NAD);
    CancelLt(k * k, (x * y) * (x * y), price * NAD);
    MulMono(0, x, 0, y);
    SquareLt(k, x * y);
  }

  /** u^2 * n <= k * m and k * n < v^2 * m give u * n < v * m. */
  lemma RatioBelow(u: nat, v: nat, k: nat, m: nat, n: nat)
    requires m > 0 && n > 0
    requires (u * u) * n <= k * m
    requires k * n < (v * v) * m
    ensures u * n < v * m
  {
    calc {
      (u * n) * (u * n);
    ==  { Regroup(u, n, u, n); Associate(u * u, n, n); }
      ((u * u) * n) * n;
    <=  { MulMono((u * u) * n, k * m, n, n); MulMono(0, u, 0, u); MulMono(0, u * u, 0, n); }
      (k * m) * n;
    ==
      (k * n) * m;
    <
      ((v * v) * m) * m;
    ==  { Regroup(v, m, v, m); }
      (v * m) * (v * m);
    }
    MulMono(0, v, 0, m);
    SquareLt(u * n, v * m);
  }

  // ---------------------------------------------------------------- monotone in the price

  /** Two prices at which the debt sides can be compared: computed on the same path, or with a
      remainder on the split path small enough for the distance between the prices. */
  predicate Comparable(rc: u64, rd: u64, low: u64, high: u64) {
    || Product(rc, rd) * high <= U128_MAX
    || Product(rc, rd) * low > U128_MAX
    || rc * ((rd * high) % NAD - rd * (high - low)) < NAD
  }

  /** On the mixed path that is exactly when the lower price has the smaller square. */
  lemma MixedSquaresOrderedIff(rc: u64, rd: u64, low: u64, high: u64)
    requires Product(rc, rd) * low <= U128_MAX < Product(rc, rd) * high
    requires YSquared(rc, rd, low).Ok? && YSquared(rc, rd, high).Ok?
    ensures YSquared(rc, rd, low).value <= YSquared(rc, rd, high).value <==> Comparable(rc, rd, low, high)
  {
    YSquaredExact(rc, rd, high);
    YSquaredValue(rc, rd, low);
    MixedOrder(rc, rd, low, high, YSquared(rc, rd, high).value, (rd * high) % NAD);
  }

  lemma MixedOrder(rc: nat, rd: nat, low: nat, high: nat, y2: nat, h: nat)
    requires y2 * NAD + rc * h == (rc * rd) * high
    ensures (rc * rd) * low / NAD <= y2 <==> rc * (h - rd * (high - low)) < NAD
  {
    FloorAtLeast(y2 + 1, (rc * rd) * low, NAD);
    DistributeMinus(h, rd * (high - low), rc);
    Associate(rc, rd, high - low);
    DistributeMinus(high, low, rc * rd);
  }

  /** Prices at least NAD / rd apart always are comparable. */
  lemma FarPricesComparable(rc: u64, rd: u64, low: u64, high: u64)
    requires rd * (high - low) >= NAD
    ensures Comparable(rc, rd, low, high)
  {
    var gap := rd * (high - low) - (rd * high) % NAD;
    MulMono(0, rc, 0, gap);
    DistributeMinus(0, gap, rc);
    assert (rd * high) % NAD - rd * (high - low) == 0 - gap;
  }

  lemma XSquaredAntitone(rc: u64, rd: u64, low: u64, high: u64)
    requires 0 < low <= high && XSquared(rc, rd, low).Ok? && XSquared(rc, rd, high).Ok?
    ensures XSquared(rc, rd, high).value <= XSquared(rc, rd, low).value
  {
    XSquaredValue(rc, rd, low);
    XSquaredValue(rc, rd, high);
    MulMono(0, Product(rc, rd), 0, NAD);
    FloorAntitone(Product(rc, rd) * NAD, low, high);
    FloorAntitone(rc * NAD, low, high);
    MulMono(rc * NAD / high, rc * NAD / low, rd, rd);
  }

  lemma YSquaredMono(rc: u64, rd: u64, low: u64, high: u64)
    requires low <= high && Comparable(rc, rd, low, high)
    requires YSquared(rc, rd, low).Ok? && YSquared(rc, rd, high).Ok?
    ensures YSquared(rc, rd, low).value <= YSquared(rc, rd, high).value
  {
    var k := Product(rc, rd);
    YSquaredValue(rc, rd, low);
    YSquaredValue(rc, rd, high);
    MulMono(k, k, low, high);
    MulMono(rd, rd, low, high);
    FloorMono(k * low, k * high, NAD);
    FloorMono(rd * low, rd * high, NAD);
    FloorAtLeast(0, rd * low, NAD);
    MulMono(rd * low / NAD, rd * high / NAD, rc, rc);
    if k * low <= U128_MAX && k * high > U128_MAX {
      MixedSquaresOrderedIff(rc, rd, low, high);
    }
  }

  /** A lower price makes the virtual collateral side deeper and the debt side shallower, on
      every path, as long as the two prices are comparable. */
  lemma ReservesMonotoneInPrice(rc: u64, rd: u64, low: u64, high: u64)
    requires 0 < low <= high && Comparable(rc, rd, low, high)
    requires AtPrice(rc, rd, low).Ok? && AtPrice(rc, rd, high).Ok?
    ensures AtPrice(rc, rd, high).value.0 <= AtPrice(rc, rd, low).value.0
    ensures AtPrice(rc, rd, low).value.1 <= AtPrice(rc, rd, high).value.1
  {
    if rc >= MIN_LIQUIDITY && rd >= MIN_LIQUIDITY {
      XSquaredAntitone(rc, rd, low, high);
      YSquaredMono(rc, rd, low, high);
      ISqrtMono(XSquared(rc, rd, high).value, XSquared(rc, rd, low).value);
      ISqrtMono(YSquared(rc, rd, low).value, YSquared(rc, rd, high).value);
    }
  }

  /** The reserves from squares and roots known in advance. */
  lemma AtPriceFrom(rc: u64, rd: u64, price: u64, x2: u128, y2: u128, x: nat, y: nat)
    requires rc >= MIN_LIQUIDITY && rd >= MIN_LIQUIDITY && price > 0
    requires XSquared(rc, rd, price) == Ok(x2) && YSquared(rc, rd, price) == Ok(y2)
    requires IsSqrt(x, x2) && IsSqrt(y, y2)
    ensures AtPrice(rc, rd, price) == Ok((x, y))
  {
    SqrtIsUnique(x, x2);
    SqrtIsUnique(y, y2);
    RootFits(x2);
    RootFits(y2);
  }

  /** The impact value of collateral at a given price. */
  function ImpactValue(rc: u64, rd: u64, ema: u64, directional: u64, collateral: u64): Result<u64> {
    var reserves :- Construct(rc, rd, ema, directional);
    AmountOut(reserves.0, reserves.1, collateral)
  }

  /** At the same reserves, valuing at the lower of the two averages never gives more than
      valuing at the symmetric one, on every path. */
  lemma PessimismNeverValuesMore(rc: u64, rd: u64, ema: u64, directional: u64, collateral: u64)
    requires directional > 0 && collateral > 0
    requires Comparable(rc, rd, PessimisticPrice(ema, directional), ema)
    requires Construct(rc, rd, ema, directional).Ok? && Construct(rc, rd, ema, ema).Ok?
    ensures ImpactValue(rc, rd, ema, directional, collateral).Ok?
    ensures ImpactValue(rc, rd, ema, ema, collateral).Ok?
    ensures ImpactValue(rc, rd, ema, directional, collateral).value
         <= ImpactValue(rc, rd, ema, ema, collateral).value
  {
    var price := PessimisticPrice(ema, directional);
    if ema > 0 {
      ReservesMonotoneInPrice(rc, rd, price, ema);
    }
    var (x, y) := AtPrice(rc, rd, price).value;
    var (x', y') := AtPrice(rc, rd, ema).value;
    AmountOutValue(x, y, collateral);
    AmountOutValue(x', y', collateral);
    OutFloorMonoReserves(x, y, x', y', collateral);
  }

  predicate Pays(x: nat, y: nat, c: nat, out: nat) {
    out * (x + c) <= c * y < (out + 1) * (x + c)
  }

  lemma ImpactFrom(rc: u64, rd: u64, ema: u64, directional: u64, c: u64, x: u64, y: u64, out: u64)
    requires Construct(rc, rd, ema, directional) == Ok((x, y)) && x + c > 0 && Pays(x, y, c, out)
    ensures ImpactValue(rc, rd, ema, directional, c) == Ok(out)
  {
    FloorAtLeast(out, c * y, x + c);
    FloorAtLeast(out + 1, c * y, x + c);
    AmountOutValue(x, y, c);
  }

  /** Where one price is on the direct path, the next on the split path and they are close, the
      lower price can value the same collateral higher. */
  lemma CloseMixedPricesAreNotMonotone()
    ensures !Comparable(0x1000_0000_0000_0000, 1000, 295147905179352825, 295147905179352826)
    ensures ImpactValue(0x1000_0000_0000_0000, 1000, 295147905179352826, 295147905179352825, 1976423)
         == Ok(291668633435675)
    ensures ImpactValue(0x1000_0000_0000_0000, 1000, 295147905179352826, 295147905179352826, 1976423)
         == Ok(291668633435501)
  {
    MixedPrices(0x1000_0000_0000_0000, 1000, 295147905179352825, 295147905179352826);
    ImpactFrom(0x1000_0000_0000_0000, 1000, 295147905179352826, 295147905179352825, 1976423,
               1976423, 583337266871351, 291668633435675);
    ImpactFrom(0x1000_0000_0000_0000, 1000, 295147905179352826, 295147905179352826, 1976423,
               1976423, 583337266871002, 291668633435501);
  }

  lemma MixedPrices(rc: u64, rd: u64, low: u64, high: u64)
    requires rc == 0x1000_0000_0000_0000 && rd == 1000
    requires low == 295147905179352825 && high == 295147905179352826
    ensures !Comparable(rc, rd, low, high)
    ensures AtPrice(rc, rd, low) == Ok((1976423, 583337266871351))
    ensures AtPrice(rc, rd, high) == Ok((1976423, 583337266871002))
  {
    var k := 1152921504606846976000;
    assert Product(rc, rd) == k;
    DirectX(rc, rd, low, k, 3906250000000);
    DirectX(rc, rd, high, k, 3906249999999);
    DirectY(rc, rd, low, k, 340282366920938462476473799488);
    SplitY(rc, rd, high, k, 295147905179);
    AtPriceFrom(rc, rd, low, 3906250000000, 340282366920938462476473799488, 1976423, 583337266871351);
    AtPriceFrom(rc, rd, high, 3906249999999, 340282366920531682946610888704, 1976423, 583337266871002);
  }

  lemma DirectX(rc: u64, rd: u64, price: u64, k: nat, x2: nat)
    requires price > 0 && k == Product(rc, rd) && k * NAD <= U128_MAX
    requires x2 * price <= k * NAD < (x2 + 1) * price
    ensures XSquared(rc, rd, price) == Ok(x2)
  {
    XSquaredValue(rc, rd, price);
    FloorAtLeast(x2, k * NAD, price);
    FloorAtLeast(x2 + 1, k * NAD, price);
  }

  lemma DirectY(rc: u64, rd: u64, price: u64, k: nat, y2: nat)
    requires k == Product(rc, rd) && k * price <= U128_MAX
    requires y2 * NAD <= k * price < (y2 + 1) * NAD
    ensures YSquared(rc, rd, price) == Ok(y2)
  {
    YSquaredValue(rc, rd, price);
  }

  lemma SplitY(rc: u64, rd: u64, price: u64, k: nat, q: nat)
    requires k == Product(rc, rd) && k * price > U128_MAX
    requires q * NAD <= rd * price < (q + 1) * NAD && q * rc <= U128_MAX
    ensures YSquared(rc, rd, price) == Ok(q * rc)
  {
    YSquaredValue(rc, rd, price);
  }
}
