/** Swap, repayment, write-off and liquidity pinned from outside: when each succeeds, every amount
    it moves, and what it leaves alone. */
module Instructions {
  import opened Words
  import opened Nonlinear
  import opened Kernels
  import opened Curve
  import opened Ledger
  import opened Fairness
  import opened Books
  import opened Market

  // ---------------------------------------------------------------- ceiling division

  /** Ceiling division fails exactly on a zero divisor or when the sum that rounds up overflows. */
  lemma CeilDivIff(a: u128, b: u128)
    ensures CeilDiv(a, b).Some? <==> b > 0 && a + b - 1 <= U128_MAX
    ensures CeilDiv(a, b).Some? ==> (CeilDiv(a, b).value - 1) * b < a <= CeilDiv(a, b).value * b
  {
    if b > 0 && a + b - 1 <= U128_MAX {
      CeilDivIsCeil(a, b);
      CeilSpec(a, b);
    }
  }

  // ---------------------------------------------------------------- swap

  /** The smallest fee that is at least the given basis points of the amount. */
  function Fee(amount: nat, bps: nat): int {
    Ceil(amount * bps, 10_000)
  }

  /** What a swap sells on the curve, and what of the input stays in the pool: the whole fee is
      withheld from the sale, and the futarchy's part of it leaves. */
  function Sold(amountIn: nat, feeBps: nat): int {
    amountIn - Fee(amountIn, feeBps)
  }

  function Kept(amountIn: nat, feeBps: nat, futarchyBps: nat): int
    requires Fee(amountIn, feeBps) >= 0
  {
    amountIn - Fee(Fee(amountIn, feeBps), futarchyBps)
  }

  lemma FeesFit(amountIn: u64, feeBps: u16, futarchyBps: u16)
    requires feeBps <= 10_000 && futarchyBps <= 10_000
    ensures 0 <= Fee(amountIn, feeBps) <= amountIn && FeeOf(amountIn, feeBps) == Ok(Fee(amountIn, feeBps))
    ensures var fee := Fee(amountIn, feeBps);
      0 <= Fee(fee, futarchyBps) <= fee && FeeOf(fee, futarchyBps) == Ok(Fee(fee, futarchyBps))
  {
    FeeBelowAmount(amountIn, feeBps);
    FeeBelowAmount(Fee(amountIn, feeBps), futarchyBps);
  }

  /** The view quotes the proceeds of what is sold, and the fee. */
  lemma QuoteIff(reserveIn: u64, reserveOut: u64, amountIn: u64, feeBps: u16)
    requires feeBps <= 10_000
    ensures 0 <= Sold(amountIn, feeBps) <= amountIn
    ensures var net := Sold(amountIn, feeBps);
      && (Quote(reserveIn, reserveOut, amountIn, feeBps).Ok? <==> reserveIn + net > 0)
      && (reserveIn + net > 0 ==>
            Quote(reserveIn, reserveOut, amountIn, feeBps)
              == Ok((OutFloor(reserveIn, reserveOut, net), amountIn - net)))
  {
    FeesFit(amountIn, feeBps, 0);
    AmountOutValue(reserveIn, reserveOut, Sold(amountIn, feeBps));
  }

  /** Every amount a swap moves. */
  predicate Swapped(tokenIn: Side, tokenOut: Side, tokenIn': Side, tokenOut': Side, kept: int, out: int) {
    && tokenIn'.reserve == tokenIn.reserve + kept && tokenIn'.cash == Min(tokenIn.cash + kept, U64_MAX)
    && tokenOut'.reserve == tokenOut.reserve - out && tokenOut'.cash == tokenOut.cash - out
    && tokenIn'.debt == tokenIn.debt && tokenIn'.shares == tokenIn.shares
    && tokenOut'.debt == tokenOut.debt && tokenOut'.shares == tokenOut.shares
  }

  /** A swap succeeds if and only if something is offered, the curve is defined, what is kept fits
      the reserve, and the proceeds reach the minimum asked for and are at hand in cash. */
  lemma SwapIff(tokenIn: Side, tokenOut: Side, amountIn: u64, minOut: u64, feeBps: u16, futarchyBps: u16)
    requires feeBps <= 10_000 && futarchyBps <= 10_000
    ensures 0 <= Sold(amountIn, feeBps) <= amountIn
    ensures Fee(amountIn, feeBps) >= 0
    ensures var net, kept := Sold(amountIn, feeBps), Kept(amountIn, feeBps, futarchyBps);
      var r := SwapSides(tokenIn, tokenOut, amountIn, minOut, feeBps, futarchyBps);
      && (r.Ok? <==>
            && amountIn > 0 && tokenIn.reserve + net > 0 && tokenIn.reserve + kept <= U64_MAX
            && minOut <= OutFloor(tokenIn.reserve, tokenOut.reserve, net) <= tokenOut.cash)
      && (r.Ok? ==>
            && r.value.2 == OutFloor(tokenIn.reserve, tokenOut.reserve, net)
            && Swapped(tokenIn, tokenOut, r.value.0, r.value.1, kept, r.value.2))
  {
    FeesFit(amountIn, feeBps, futarchyBps);
    var x, y := tokenIn.reserve, tokenOut.reserve;
    var net, kept := Sold(amountIn, feeBps), Kept(amountIn, feeBps, futarchyBps);
    AmountOutValue(x, y, net);
    if amountIn > 0 && x + net > 0 && x + kept <= U64_MAX {
      var out := OutFloor(x, y, net);
      OutFloorBelowReserve(x, y, net);
      ProceedsKeepProduct(x, y, net);
      MulMono(x + net, x + kept, y - out, y - out);
    }
  }

  // ---------------------------------------------------------------- repayment

  /** The side after `amount` is repaid and `burned` shares are gone: cash grows, and what is left
      of the debt is dropped with the last share. */
  predicate Repaid(s: Side, s': Side, mine: int, mine': int, amount: int, burned: int) {
    && s'.reserve == s.reserve && s'.cash == Min(s.cash + amount, U64_MAX)
    && s'.shares == s.shares - burned && mine' == mine - burned
    && s'.debt == (if s.shares == burned then 0 else s.debt - amount)
  }

  /** The amount of a repayment: the whole reading when none is given. */
  function Amount(requested: Option<u64>, owed: int): int {
    match requested case Some(a) => a case None => owed
  }

  /** A repayment succeeds if and only if something is owed, no more than that is repaid and not
      nothing, and the share product fits; it burns amount * shares / debt, rounded down, and at
      most what is held. */
  lemma RepayIff(s: Side, mine: u128, requested: Option<u64>, owed: u64)
    requires mine <= s.shares && DebtOf(mine, s.debt, s.shares) == Ok(owed)
    ensures var amount := Amount(requested, owed);
      && (RepaySide(s, mine, requested).Ok? <==>
            requested != Some(0) && 0 < owed && amount <= owed && amount * s.shares <= U128_MAX)
      && (RepaySide(s, mine, requested).Ok? ==>
            && var (s', mine') := RepaySide(s, mine, requested).value;
            && s.debt > 0
            && Repaid(s, s', mine, mine', amount, Min(amount * s.shares / s.debt, mine)))
  {
    DebtOfIsOwed(mine, s);
    if s.shares > 0 {
      MulMono(mine, s.shares, s.debt, s.debt);
      MulMono(0, mine, 0, s.debt);
      CeilAtMost(s.debt, mine * s.debt, s.shares);
    }
    var amount := Amount(requested, owed);
    MulMono(0, amount, 0, s.shares);
    if s.debt > 0 {
      FloorAtLeast(0, amount * s.shares, s.debt);
    }
  }

  /** Without a reading nothing can be repaid. */
  lemma NoRepaymentUnread(s: Side, mine: u128, requested: Option<u64>)
    requires DebtOf(mine, s.debt, s.shares).Err?
    ensures RepaySide(s, mine, requested).Err?
  {
  }

  // ---------------------------------------------------------------- write-off

  /** A write-off never fails; it burns the given shares as far as they are held, and takes the
      amount off debt and reserve, leaving one unit where the reserve does not suffice. */
  lemma WriteOffAlways(s: Side, mine: u128, exact: u128, amount: u64)
    requires mine <= s.shares
    ensures Decrease(s, mine, amount, WriteOff(exact)).Ok?
    ensures var (s', mine') := Decrease(s, mine, amount, WriteOff(exact)).value;
      && mine - mine' == s.shares - s'.shares == Min(exact, mine)
      && s'.reserve == (if amount <= s.reserve then s.reserve - amount else 1)
      && s'.cash == s.cash
      && s'.debt == (if s.shares == Min(exact, mine) then 0 else Max(s.debt - amount, 0))
  {
  }

  // ---------------------------------------------------------------- liquidity

  /** Liquidity comes in whenever it fits, and goes out whenever reserve and cash hold it. */
  lemma LiquidityIff(s: Side, amount: u64)
    ensures TakeInSide(s, amount).Ok? <==> s.reserve + amount <= U64_MAX
    ensures PayOutSide(s, amount).Ok? <==> amount <= s.reserve && amount <= s.cash
    ensures TakeInSide(s, amount).Ok? ==>
      var s' := TakeInSide(s, amount).value;
      && s'.reserve == s.reserve + amount && s'.cash == Min(s.cash + amount, U64_MAX)
      && s'.debt == s.debt && s'.shares == s.shares
    ensures PayOutSide(s, amount).Ok? ==>
      var s' := PayOutSide(s, amount).value;
      && s'.reserve == s.reserve - amount && s'.cash == s.cash - amount
      && s'.debt == s.debt && s'.shares == s.shares
  {
  }

  /** What is put in can be taken out again at once, and leaves everything as it was. */
  lemma ProvideThenWithdraw(p: Pool, a0: u64, a1: u64)
    requires BothBalanced(p)
    requires p.book0.side.reserve + a0 <= U64_MAX && p.book1.side.reserve + a1 <= U64_MAX
    ensures Act(p, Provide(a0, a1)).Ok?
    ensures Act(Act(p, Provide(a0, a1)).value, Withdraw(a0, a1)) == Ok(p)
  {
    var q := Act(p, Provide(a0, a1)).value;
    PutInAndOut(p.book0.side, a0);
    PutInAndOut(p.book1.side, a1);
  }

  lemma PutInAndOut(s: Side, amount: u64)
    requires s.cash <= s.reserve && s.reserve + amount <= U64_MAX
    ensures TakeInSide(s, amount).Ok? && PayOutSide(TakeInSide(s, amount).value, amount) == Ok(s)
  {
  }

  // ---------------------------------------------------------------- what is left alone

  /** Whose shares and whose token an action may touch. */
  predicate Elsewhere(p: Pool, p': Pool, zero: bool, who: nat)
    requires who < |p.BookOf(zero).holdings|
  {
    && p'.BookOf(!zero) == p.BookOf(!zero)
    && p'.BookOf(zero).side.reserve == p.BookOf(zero).side.reserve
    && |p'.BookOf(zero).holdings| == |p.BookOf(zero).holdings|
    && forall i | 0 <= i < |p.BookOf(zero).holdings| && i != who ::
         p'.BookOf(zero).holdings[i] == p.BookOf(zero).holdings[i]
  }

  /** Borrowing is the ledger's on the caller's own shares of the token named, and touches nothing
      else; the reserve is virtual and stays. */
  lemma BorrowIsLocal(p: Pool, zero: bool, who: nat, amount: u64)
    ensures Act(p, BorrowFrom(zero, who, amount)).Ok? <==>
      && who < |p.BookOf(zero).holdings|
      && Increase(p.BookOf(zero).side, p.BookOf(zero).holdings[who], amount).Ok?
    ensures Act(p, BorrowFrom(zero, who, amount)).Ok? ==>
      var p' := Act(p, BorrowFrom(zero, who, amount)).value;
      && Elsewhere(p, p', zero, who)
      && Increase(p.BookOf(zero).side, p.BookOf(zero).holdings[who], amount)
           == Ok((p'.BookOf(zero).side, p'.BookOf(zero).holdings[who]))
  {
  }

  /** So is repaying, a given amount or all of it. */
  lemma RepayIsLocal(p: Pool, zero: bool, who: nat, requested: Option<u64>)
    ensures Act(p, RepayTo(zero, who, requested)).Ok? <==>
      && who < |p.BookOf(zero).holdings|
      && RepaySide(p.BookOf(zero).side, p.BookOf(zero).holdings[who], requested).Ok?
    ensures Act(p, RepayTo(zero, who, requested)).Ok? ==>
      var p' := Act(p, RepayTo(zero, who, requested)).value;
      && Elsewhere(p, p', zero, who)
      && RepaySide(p.BookOf(zero).side, p.BookOf(zero).holdings[who], requested)
           == Ok((p'.BookOf(zero).side, p'.BookOf(zero).holdings[who]))
  {
  }
}
