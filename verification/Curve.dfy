/** The constant-product curve of utils/gamm_math.rs and the exact relation between its two
    directions. */
module Curve {
  import opened Words
  import opened Nonlinear
  import opened Kernels

  function AmountOut(reserveIn: u64, reserveOut: u64, amountIn: u64): Result<u64> {
    var denominator :- OkOr(CheckedAdd(reserveIn, amountIn), DenominatorOverflow);
    var product :- OkOr(CheckedMul(amountIn, reserveOut), OutputAmountOverflow);
    var quotient :- OkOr(CheckedDiv(product, denominator), OutputAmountOverflow);
    OkOr(ToU64(quotient), OutputAmountOverflow)
  }

  function AmountIn(reserveIn: u64, reserveOut: u64, amountOut: u64): Result<u64> {
    var denominator :- OkOr(CheckedSub(reserveOut, amountOut), DenominatorOverflow);
    var numerator :- OkOr(CheckedMul(amountOut, reserveIn), OutputAmountOverflow);
    var quotient :- OkOr(CeilDiv(numerator, denominator), OutputAmountOverflow);
    OkOr(ToU64(quotient), OutputAmountOverflow)
  }

  /** The two directions over unbounded integers. */
  function OutFloor(x: nat, y: nat, a: nat): nat
    requires x + a > 0
  {
    MulMono(0, a, 0, y);
    FloorAtLeast(0, a * y, x + a);
    a * y / (x + a)
  }

  function InCeil(x: nat, y: nat, d: nat): nat
    requires d < y
  {
    MulMono(0, d, 0, x);
    FloorAtLeast(0, d * x + (y - d) - 1, y - d);
    Ceil(d * x, y - d)
  }

  /** Selling never empties the other side. */
  lemma OutFloorBelowReserve(x: nat, y: nat, a: nat)
    requires x + a > 0
    ensures OutFloor(x, y, a) <= y
    ensures x > 0 && y > 0 ==> OutFloor(x, y, a) < y
  {
    Distribute(x, a, y);
    MulMono(0, x, 0, y);
    FloorSpec(a * y, x + a);
    FloorAtLeast(y + 1, a * y, x + a);
    FloorAtLeast(y, a * y, x + a);
    Distribute(y, 1, x + a);
    if x > 0 && y > 0 {
      MulMono(1, x, 1, y);
    }
  }

  /** The only failing input of AmountOut is an empty reserve with nothing sold. */
  lemma AmountOutValue(x: u64, y: u64, a: u64)
    ensures x + a > 0 ==> AmountOut(x, y, a) == Ok(OutFloor(x, y, a))
    ensures x + a == 0 ==> AmountOut(x, y, a).Err?
  {
    MulMono(a, U64_MAX, y, U64_MAX);
    if x + a > 0 {
      OutFloorBelowReserve(x, y, a);
    }
  }

  /** AmountIn fails exactly when the reserve cannot pay or the answer exceeds a word. */
  lemma AmountInValue(x: u64, y: u64, d: u64)
    ensures d < y && InCeil(x, y, d) <= U64_MAX ==> AmountIn(x, y, d) == Ok(InCeil(x, y, d))
    ensures y <= d || InCeil(x, y, d) > U64_MAX ==> AmountIn(x, y, d).Err?
  {
    MulMono(d, U64_MAX, x, U64_MAX);
    if d < y {
      CeilDivIsCeil(d * x, y - d);
    }
  }

  /** Over unbounded integers: an input a buys at least d if and only if a is at least the
      quoted input for d. */
  lemma Adjunction(x: nat, y: nat, a: nat, d: nat)
    requires d < y && x + a > 0
    ensures d <= OutFloor(x, y, a) <==> InCeil(x, y, d) <= a
  {
    FloorAtLeast(d, a * y, x + a);
    CeilAtMost(a, d * x, y - d);
    Distribute(x, a, d);
    DistributeMinus(y, d, a);
  }

  lemma OutFloorMonoInput(x: nat, y: nat, a: nat, b: nat)
    requires x > 0 && a <= b
    ensures OutFloor(x, y, a) <= OutFloor(x, y, b)
  {
    var d := OutFloor(x, y, a);
    if y > 0 {
      OutFloorBelowReserve(x, y, a);
      Adjunction(x, y, a, d);
      Adjunction(x, y, b, d);
    } else {
      OutFloorBelowReserve(x, y, a);
    }
  }

  /** A deeper output reserve and a shallower input reserve never pay less. */
  lemma OutFloorMonoReserves(x: nat, y: nat, x': nat, y': nat, a: nat)
    requires x' <= x && y <= y' && a > 0
    ensures OutFloor(x, y, a) <= OutFloor(x', y', a)
  {
    MulMono(a, a, y, y');
    FloorMono(a * y, a * y', x + a);
    FloorAntitone(a * y', x' + a, x + a);
  }

  /** AmountIn is the exact lower adjoint of AmountOut, its failures included: when it
      fails, no 64-bit input buys d. */
  lemma AmountInIsLowerAdjoint(x: u64, y: u64, a: u64, d: u64)
    requires x > 0
    ensures AmountOut(x, y, a).Ok?
    ensures d <= AmountOut(x, y, a).value <==>
            d == 0 || (AmountIn(x, y, d).Ok? && AmountIn(x, y, d).value <= a)
  {
    AmountOutValue(x, y, a);
    AmountInValue(x, y, d);
    OutFloorBelowReserve(x, y, a);
    if d < y {
      Adjunction(x, y, a, d);
    }
  }

  /** Quoting an input, selling it and quoting the proceeds gives the same input again. */
  lemma QuoteIsIdempotent(x: u64, y: u64, d: u64)
    requires x > 0 && AmountIn(x, y, d).Ok?
    ensures AmountOut(x, y, AmountIn(x, y, d).value).Ok?
    ensures var out := AmountOut(x, y, AmountIn(x, y, d).value).value;
      d <= out && AmountIn(x, y, out) == AmountIn(x, y, d)
  {
    var a := AmountIn(x, y, d).value;
    AmountInIsLowerAdjoint(x, y, a, d);
    AmountInValue(x, y, d);
    AmountOutValue(x, y, a);
    var out := AmountOut(x, y, a).value;
    OutFloorBelowReserve(x, y, a);
    AmountInValue(x, y, out);
    Adjunction(x, y, a, out);
    Adjunction(x, y, InCeil(x, y, out), out);
    OutFloorMonoInput(x, y, InCeil(x, y, out), a);
    Adjunction(x, y, InCeil(x, y, out), d);
  }

  /** Selling, quoting the proceeds and selling the quote gives the same proceeds again. */
  lemma SaleIsIdempotent(x: u64, y: u64, a: u64)
    requires x > 0 && y > 0
    ensures AmountOut(x, y, a).Ok? && AmountIn(x, y, AmountOut(x, y, a).value).Ok?
    ensures var quoted := AmountIn(x, y, AmountOut(x, y, a).value).value;
      quoted <= a && AmountOut(x, y, quoted) == AmountOut(x, y, a)
  {
    AmountOutValue(x, y, a);
    var out := AmountOut(x, y, a).value;
    OutFloorBelowReserve(x, y, a);
    Adjunction(x, y, a, out);
    AmountInValue(x, y, out);
    var quoted := AmountIn(x, y, out).value;
    Adjunction(x, y, quoted, out);
    AmountOutValue(x, y, quoted);
    OutFloorMonoInput(x, y, quoted, a);
  }

  /** Moving the curve: after adding a and paying d the product does not fall if and only
      if a covers the quoted input for d. */
  lemma ProductKeptIff(x: nat, y: nat, a: nat, d: nat)
    requires d < y
    ensures x * y <= (x + a) * (y - d) <==> InCeil(x, y, d) <= a
  {
    CeilAtMost(a, d * x, y - d);
    Distribute(x, a, y - d);
    DistributeMinus(y, d, x);
  }
}
