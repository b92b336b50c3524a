/** Both sides of the pair under its instructions: swaps, accrual, lending, liquidation and
    liquidity, with the product k and the balance of each side followed over whole runs. */
module Market {
  import opened Words
  import opened Nonlinear
  import opened Kernels
  import opened Curve
  import opened VirtualReserves
  import opened BorrowLimit
  import opened Ledger
  import opened Fairness
  import opened Books
  import opened Liquidations

  // ---------------------------------------------------------------- swap

  /** A fee in basis points, rounded up. */
  function FeeOf(amount: u64, bps: u16): Result<u64> {
    MulMono(amount, U64_MAX, bps, 0xFFFF);
    var fee :- OkOr(CeilDiv(amount * bps, BPS), FeeMathOverflow);
    Ok(AsU64(fee))
  }

  /** (amount out, swap fee) as the view quotes them. */
  function Quote(reserveIn: u64, reserveOut: u64, amountIn: u64, feeBps: u16): Result<(u64, u64)> {
    var fee :- FeeOf(amountIn, feeBps);
    var net :- OkOr(CheckedSub64(amountIn, fee), FeeMathOverflow);
    var out :- AmountOut(reserveIn, reserveOut, net);
    Ok((out, fee))
  }

  /** handle_swap: the futarchy's part of the fee leaves the pool, the rest stays in it. */
  function SwapSides(
    tokenIn: Side, tokenOut: Side, amountIn: u64, minOut: u64, feeBps: u16, futarchyBps: u16): Result<(Side, Side, u64)>
  {
    var _ :- Require(amountIn > 0, AmountZero);
    var fee :- FeeOf(amountIn, feeBps);
    var futarchyFee :- FeeOf(fee, futarchyBps);
    var net :- OkOr(CheckedSub64(amountIn, fee), FeeMathOverflow);
    var out :- AmountOut(tokenIn.reserve, tokenOut.reserve, net);
    var kept :- OkOr(CheckedSub64(amountIn, futarchyFee), Overflow);
    var newIn :- OkOr(CheckedAdd64(tokenIn.reserve, kept), Overflow);
    var newOut :- OkOr(CheckedSub64(tokenOut.reserve, out), Overflow);
    var _ :- Require(out >= minOut, SlippageExceeded);
    var _ :- Require(tokenOut.cash >= out, InsufficientCashReserve);
    var _ :- Require(newIn * newOut >= tokenIn.reserve * tokenOut.reserve, BrokenInvariant);
    Ok((tokenIn.(reserve := newIn, cash := SaturatingAdd64(tokenIn.cash, kept)),
        tokenOut.(reserve := newOut, cash := tokenOut.cash - out),
        out))
  }

  lemma FeeBelowAmount(amount: u64, bps: u16)
    requires bps <= BPS
    ensures FeeOf(amount, bps) == Ok(Ceil(amount * bps, BPS)) && Ceil(amount * bps, BPS) <= amount
  {
    MulMono(amount, amount, bps, BPS);
    CeilDivIsCeil(amount * bps, BPS);
    CeilAtMost(amount, amount * bps, BPS);
    CeilAtMost(-1, amount * bps, BPS);
  }

  /** With fees of at most 100 % the final check of the invariant never fires, and k never
      falls: rounding the proceeds down and keeping part of the fee both raise it. */
  lemma SwapNeverBreaksInvariant(
    tokenIn: Side, tokenOut: Side, amountIn: u64, minOut: u64, feeBps: u16, futarchyBps: u16)
    requires feeBps <= BPS && futarchyBps <= BPS
    ensures SwapSides(tokenIn, tokenOut, amountIn, minOut, feeBps, futarchyBps) != Err(BrokenInvariant)
    ensures var r := SwapSides(tokenIn, tokenOut, amountIn, minOut, feeBps, futarchyBps);
      r.Ok? ==>
        && r.value.0.reserve * r.value.1.reserve >= tokenIn.reserve * tokenOut.reserve
        && Quote(tokenIn.reserve, tokenOut.reserve, amountIn, feeBps).Ok?
        && r.value.2 == Quote(tokenIn.reserve, tokenOut.reserve, amountIn, feeBps).value.0
  {
    FeeBelowAmount(amountIn, feeBps);
    var fee := FeeOf(amountIn, feeBps).value;
    FeeBelowAmount(fee, futarchyBps);
    var kept := amountIn - FeeOf(fee, futarchyBps).value;
    var net := amountIn - fee;
    var x, y := tokenIn.reserve, tokenOut.reserve;
    AmountOutValue(x, y, net);
    if x + net > 0 {
      ProceedsKeepProduct(x, y, net);
      OutFloorBelowReserve(x, y, net);
      MulMono(x + net, x + kept, y - OutFloor(x, y, net), y - OutFloor(x, y, net));
    }
  }

  lemma ProceedsKeepProduct(x: nat, y: nat, a: nat)
    requires x + a > 0
    ensures x * y <= (x + a) * (y - OutFloor(x, y, a))
  {
    FloorSpec(a * y, x + a);
    DistributeMinus(y, OutFloor(x, y, a), x + a);
    Distribute(x, a, y);
  }

  /** Swapping in one direction, each swap at the reserves the previous one left. */
  datatype Spree = Spree(tokenIn: Side, tokenOut: Side, net: nat, proceeds: nat)

  function SwapAll(t: Spree, amounts: seq<u64>, feeBps: u16, futarchyBps: u16): Result<Spree>
    decreases |amounts|
  {
    if amounts == [] then Ok(t)
    else
      var fee :- FeeOf(amounts[0], feeBps);
      var r :- SwapSides(t.tokenIn, t.tokenOut, amounts[0], 0, feeBps, futarchyBps);
      SwapAll(Spree(r.0, r.1, t.net + SaturatingSub64(amounts[0], fee), t.proceeds + r.2),
              amounts[1..], feeBps, futarchyBps)
  }

  /** The proceeds so far fit under the starting curve at the net input so far. */
  ghost predicate UnderCurve(t: Spree, x: nat, y: nat) {
    && t.tokenOut.reserve + t.proceeds == y
    && x + t.net <= t.tokenIn.reserve
    && x * y <= (x + t.net) * t.tokenOut.reserve
  }

  lemma SwapStaysUnderCurve(t: Spree, amount: u64, feeBps: u16, futarchyBps: u16, x: nat, y: nat)
    requires feeBps <= BPS && futarchyBps <= BPS && UnderCurve(t, x, y)
    requires SwapSides(t.tokenIn, t.tokenOut, amount, 0, feeBps, futarchyBps).Ok?
    ensures var r := SwapSides(t.tokenIn, t.tokenOut, amount, 0, feeBps, futarchyBps).value;
      && FeeOf(amount, feeBps).Ok?
      && var net := SaturatingSub64(amount, FeeOf(amount, feeBps).value);
      && UnderCurve(Spree(r.0, r.1, t.net + net, t.proceeds + r.2), x, y)
  {
    FeeBelowAmount(amount, feeBps);
    var fee := FeeOf(amount, feeBps).value;
    FeeBelowAmount(fee, futarchyBps);
    var net := amount - fee;
    var u, v := t.tokenIn.reserve, t.tokenOut.reserve;
    AmountOutValue(u, v, net);
    ProceedsKeepProduct(u, v, net);
    OutFloorBelowReserve(u, v, net);
    SmallerBaseKeepsProduct(u, x + t.net, v, v - OutFloor(u, v, net), net);
  }

  /** From u down to w <= u: the output side shrinks no more, so the product still holds. */
  lemma SmallerBaseKeepsProduct(u: nat, w: nat, v: nat, v': nat, net: nat)
    requires w <= u && v' <= v && u * v <= (u + net) * v'
    ensures w * v <= (w + net) * v'
  {
    Distribute(u, net, v');
    Distribute(w, net, v');
    MulMono(u - w, u - w, v', v);
    DistributeMinus(u, w, v);
    DistributeMinus(u, w, v');
  }

  lemma {:induction false} SpreeStaysUnderCurve(
    t: Spree, amounts: seq<u64>, feeBps: u16, futarchyBps: u16, x: nat, y: nat)
    requires feeBps <= BPS && futarchyBps <= BPS && UnderCurve(t, x, y)
    requires SwapAll(t, amounts, feeBps, futarchyBps).Ok?
    ensures UnderCurve(SwapAll(t, amounts, feeBps, futarchyBps).value, x, y)
    decreases |amounts|
  {
    if amounts != [] {
      SwapStaysUnderCurve(t, amounts[0], feeBps, futarchyBps, x, y);
      var r := SwapSides(t.tokenIn, t.tokenOut, amounts[0], 0, feeBps, futarchyBps).value;
      var fee := FeeOf(amounts[0], feeBps).value;
      SpreeStaysUnderCurve(Spree(r.0, r.1, t.net + SaturatingSub64(amounts[0], fee), t.proceeds + r.2),
                           amounts[1..], feeBps, futarchyBps, x, y);
    }
  }

  /** Splitting a swap never helps: the joint proceeds of any sequence in one direction are at
      most what one fee-free swap of the joint net input pays at the start. */
  lemma SplittingASwapNeverHelps(tokenIn: Side, tokenOut: Side, amounts: seq<u64>, feeBps: u16, futarchyBps: u16)
    requires feeBps <= BPS && futarchyBps <= BPS && tokenIn.reserve > 0
    requires SwapAll(Spree(tokenIn, tokenOut, 0, 0), amounts, feeBps, futarchyBps).Ok?
    ensures var end := SwapAll(Spree(tokenIn, tokenOut, 0, 0), amounts, feeBps, futarchyBps).value;
      end.proceeds <= OutFloor(tokenIn.reserve, tokenOut.reserve, end.net)
  {
    var x, y := tokenIn.reserve, tokenOut.reserve;
    SpreeStaysUnderCurve(Spree(tokenIn, tokenOut, 0, 0), amounts, feeBps, futarchyBps, x, y);
    var end := SwapAll(Spree(tokenIn, tokenOut, 0, 0), amounts, feeBps, futarchyBps).value;
    DistributeMinus(y, end.proceeds, x + end.net);
    Distribute(x, end.net, y);
    FloorAtLeast(end.proceeds, end.net * y, x + end.net);
  }

  // ---------------------------------------------------------------- the pool

  datatype Pool = Pool(book0: Book, book1: Book) {
    function BookOf(zero: bool): Book {
      if zero then book0 else book1
    }

    function With(zero: bool, b: Book): Pool {
      if zero then this.(book0 := b) else this.(book1 := b)
    }

    function K(): int {
      book0.side.reserve * book1.side.reserve
    }
  }

  datatype Action =
    | Accrual(integral0: u64, integral1: u64, interestBps: u16)
    | OpenPosition
    | BorrowFrom(zero: bool, who: nat, amount: u64)
    | RepayTo(zero: bool, who: nat, requested: Option<u64>)
    | Swap(zeroIn: bool, amountIn: u64, minOut: u64, feeBps: u16, futarchyBps: u16)
    | LiquidateIn(zero: bool, who: nat, terms: Terms)
    | Provide(amount0: u64, amount1: u64)
    | Withdraw(amount0: u64, amount1: u64)

  function OnBooks(p: Pool, step0: Step, step1: Step): Result<Pool> {
    var b0 :- Next(p.book0, step0);
    var b1 :- Next(p.book1, step1);
    Ok(Pool(b0, b1))
  }

  function OnBook(p: Pool, zero: bool, step: Step): Result<Pool> {
    var b :- Next(p.BookOf(zero), step);
    Ok(p.With(zero, b))
  }

  function Act(p: Pool, a: Action): Result<Pool> {
    match a
    case Accrual(i0, i1, bps) => OnBooks(p, Accrue(i0, bps), Accrue(i1, bps))
    case OpenPosition => OnBooks(p, Open, Open)
    case BorrowFrom(zero, who, amount) => OnBook(p, zero, Borrow(who, amount))
    case RepayTo(zero, who, amount) =>
      OnBook(p, zero, match amount case Some(n) => Repay(who, n) case None => RepayAll(who))
    case Swap(zeroIn, amountIn, minOut, feeBps, futarchyBps) =>
      var r :- SwapSides(p.BookOf(zeroIn).side, p.BookOf(!zeroIn).side, amountIn, minOut, feeBps, futarchyBps);
      Ok(p.With(zeroIn, p.BookOf(zeroIn).(side := r.0)).With(!zeroIn, p.BookOf(!zeroIn).(side := r.1)))
    case LiquidateIn(zero, who, terms) =>
      var b := p.BookOf(zero);
      var _ :- Require(who < |b.holdings|, Panic);
      var l :- Liquidation(b.side, p.BookOf(!zero).side, b.holdings[who], terms);
      Ok(p.With(zero, Put(b, who, (l.debtSide, l.mine))).With(!zero, p.BookOf(!zero).(side := l.collateralSide)))
    case Provide(a0, a1) => OnBooks(p, TakeIn(a0), TakeIn(a1))
    case Withdraw(a0, a1) => OnBooks(p, PayOut(a0), PayOut(a1))
  }

  predicate BothBalanced(p: Pool) {
    Balanced(p.book0) && Balanced(p.book1)
  }

  /** Fees of at most 100 % and the two saturation conditions of the books. */
  predicate Admissible(p: Pool, a: Action) {
    match a
    case Accrual(i0, i1, bps) => Unsaturated(p.book0, Accrue(i0, bps)) && Unsaturated(p.book1, Accrue(i1, bps))
    case BorrowFrom(zero, who, amount) => Unsaturated(p.BookOf(zero), Borrow(who, amount))
    case Swap(_, _, _, feeBps, futarchyBps) => feeBps <= BPS && futarchyBps <= BPS
    case _ => true
  }

  lemma BookStep(b: Book, step: Step)
    requires Balanced(b) && Unsaturated(b, step) && !step.WriteDown? && Next(b, step).Ok?
    ensures Balanced(Next(b, step).value)
  {
    StepKeepsSound(b, step);
  }

  /** A swap is a deposit on one side and a payment on the other. */
  lemma SwapMovesCash(p: Pool, a: Action)
    requires a.Swap? && BothBalanced(p) && Act(p, a).Ok?
    ensures BothBalanced(Act(p, a).value)
  {
  }

  /** A liquidation is a write-off on one side and a deposit on the other. */
  lemma LiquidationMovesCash(p: Pool, a: Action)
    requires a.LiquidateIn? && BothBalanced(p) && Act(p, a).Ok?
    ensures BothBalanced(Act(p, a).value)
  {
    var b, c := p.BookOf(a.zero), p.BookOf(!a.zero);
    var mine := b.holdings[a.who];
    PartBelowTotal(b.holdings, a.who);
    LiquidationSides(b.side, c.side, mine, a.terms);
    TotalPut(b.holdings, a.who, Liquidation(b.side, c.side, mine, a.terms).value.mine);
  }

  lemma ActKeepsBalance(p: Pool, a: Action)
    requires BothBalanced(p) && Admissible(p, a) && Act(p, a).Ok?
    ensures BothBalanced(Act(p, a).value)
  {
    match a
    case Accrual(i0, i1, bps) =>
      BookStep(p.book0, Accrue(i0, bps));
      BookStep(p.book1, Accrue(i1, bps));
    case OpenPosition =>
      BookStep(p.book0, Open);
      BookStep(p.book1, Open);
    case BorrowFrom(zero, who, amount) =>
      BookStep(p.BookOf(zero), Borrow(who, amount));
    case RepayTo(zero, who, amount) =>
      BookStep(p.BookOf(zero), match amount case Some(n) => Repay(who, n) case None => RepayAll(who));
    case Swap(_, _, _, _, _) =>
      SwapMovesCash(p, a);
    case LiquidateIn(_, _, _) =>
      LiquidationMovesCash(p, a);
    case Provide(a0, a1) =>
      BookStep(p.book0, TakeIn(a0));
      BookStep(p.book1, TakeIn(a1));
    case Withdraw(a0, a1) =>
      BookStep(p.book0, PayOut(a0));
      BookStep(p.book1, PayOut(a1));
  }

  /** A liquidation whose proceeds will cover, at the spot reserves, the debt it writes off. */
  predicate CoversDebt(p: Pool, a: Action) {
    a.LiquidateIn? && a.who < |p.BookOf(a.zero).holdings| ==>
      ProceedsCover(p.BookOf(a.zero).side, p.BookOf(!a.zero).side, p.BookOf(a.zero).holdings[a.who], a.terms)
  }

  /** Nothing but a withdrawal or a liquidation that does not cover its debt can lower k. */
  lemma ActKeepsK(p: Pool, a: Action)
    requires BothBalanced(p) && Admissible(p, a) && Act(p, a).Ok?
    requires CoversDebt(p, a) && !a.Withdraw?
    ensures p.K() <= Act(p, a).value.K()
  {
    if a.Swap? {
      SwapNeverBreaksInvariant(p.BookOf(a.zeroIn).side, p.BookOf(!a.zeroIn).side,
                               a.amountIn, a.minOut, a.feeBps, a.futarchyBps);
      SwappedSides(p, a);
      ProductOfSides(p, a.zeroIn);
      ProductOfSides(Act(p, a).value, a.zeroIn);
    } else if a.LiquidateIn? {
      LiquidationCoversK(p, a);
    } else {
      var p' := Act(p, a).value;
      ReservesDoNotFall(p, a);
      MulMono(p.book0.side.reserve, p'.book0.side.reserve, p.book1.side.reserve, p'.book1.side.reserve);
    }
  }

  /** For a liquidation, covering is exactly what keeps k. */
  lemma LiquidationCoversK(p: Pool, a: Action)
    requires BothBalanced(p) && a.LiquidateIn? && Act(p, a).Ok?
    ensures p.K() <= Act(p, a).value.K() <==> CoversDebt(p, a)
  {
    var b, c := p.BookOf(a.zero), p.BookOf(!a.zero);
    PartBelowTotal(b.holdings, a.who);
    LiquidationKeepsKIff(b.side, c.side, b.holdings[a.who], a.terms);
    LiquidatedSides(p, a);
    ProductOfSides(p, !a.zero);
    ProductOfSides(Act(p, a).value, !a.zero);
  }

  lemma LiquidatedSides(p: Pool, a: Action)
    requires a.LiquidateIn? && Act(p, a).Ok?
    ensures a.who < |p.BookOf(a.zero).holdings|
    ensures var l := Liquidation(p.BookOf(a.zero).side, p.BookOf(!a.zero).side,
                                 p.BookOf(a.zero).holdings[a.who], a.terms);
      && l.Ok? && l.value.incentive <= l.value.seized
      && Act(p, a).value.BookOf(a.zero).side == l.value.debtSide
      && Act(p, a).value.BookOf(!a.zero).side == l.value.collateralSide
  {
  }

  lemma SwappedSides(p: Pool, a: Action)
    requires a.Swap? && Act(p, a).Ok?
    ensures var r := SwapSides(p.BookOf(a.zeroIn).side, p.BookOf(!a.zeroIn).side,
                               a.amountIn, a.minOut, a.feeBps, a.futarchyBps);
      && r.Ok?
      && Act(p, a).value.BookOf(a.zeroIn).side == r.value.0
      && Act(p, a).value.BookOf(!a.zeroIn).side == r.value.1
  {
  }

  /** k does not depend on which side comes first. */
  lemma ProductOfSides(p: Pool, zero: bool)
    ensures p.K() == p.BookOf(zero).side.reserve * p.BookOf(!zero).side.reserve
  {
  }

  lemma ReservesDoNotFall(p: Pool, a: Action)
    requires BothBalanced(p) && Act(p, a).Ok?
    requires !a.LiquidateIn? && !a.Withdraw? && !a.Swap?
    ensures p.book0.side.reserve <= Act(p, a).value.book0.side.reserve
    ensures p.book1.side.reserve <= Act(p, a).value.book1.side.reserve
  {
    match a
    case Accrual(i0, i1, bps) =>
      AccrueValue(p.book0.side, i0, bps);
      AccrueValue(p.book1.side, i1, bps);
    case BorrowFrom(zero, who, amount) =>
      IncreaseValue(p.BookOf(zero).side, p.BookOf(zero).holdings[who], amount);
    case RepayTo(zero, who, requested) =>
      PartBelowTotal(p.BookOf(zero).holdings, who);
      RepaySideValue(p.BookOf(zero).side, p.BookOf(zero).holdings[who], requested);
    case _ =>
  }

  // ---------------------------------------------------------------- runs

  function ActOrSkip(p: Pool, a: Action): Pool {
    match Act(p, a) case Ok(next) => next case Err(_) => p
  }

  function Play(p: Pool, actions: seq<Action>): Pool
    decreases |actions|
  {
    if actions == [] then p else Play(ActOrSkip(p, actions[0]), actions[1..])
  }

  predicate AllAdmissible(p: Pool, actions: seq<Action>)
    decreases |actions|
  {
    actions == [] || (Admissible(p, actions[0]) && AllAdmissible(ActOrSkip(p, actions[0]), actions[1..]))
  }

  /** Over any run of the program's instructions virtual reserve = cash + debt holds exactly on
      both sides, and the positions' shares add up to the total on both. */
  lemma {:induction false} PlayKeepsBalance(p: Pool, actions: seq<Action>)
    requires BothBalanced(p) && AllAdmissible(p, actions)
    ensures BothBalanced(Play(p, actions))
    decreases |actions|
  {
    if actions != [] {
      if Act(p, actions[0]).Ok? {
        ActKeepsBalance(p, actions[0]);
      }
      PlayKeepsBalance(ActOrSkip(p, actions[0]), actions[1..]);
    }
  }

  /** No action of the run withdraws, and every liquidation covers its debt when it happens. */
  predicate AllCover(p: Pool, actions: seq<Action>)
    decreases |actions|
  {
    actions == []
    || (!actions[0].Withdraw? && CoversDebt(p, actions[0]) && AllCover(ActOrSkip(p, actions[0]), actions[1..]))
  }

  /** Over any run without withdrawals whose liquidations cover their debt, k never decreases. */
  lemma {:induction false} PlayKeepsK(p: Pool, actions: seq<Action>)
    requires BothBalanced(p) && AllAdmissible(p, actions) && AllCover(p, actions)
    ensures p.K() <= Play(p, actions).K()
    decreases |actions|
  {
    if actions != [] {
      if Act(p, actions[0]).Ok? {
        ActKeepsBalance(p, actions[0]);
        ActKeepsK(p, actions[0]);
      }
      PlayKeepsK(ActOrSkip(p, actions[0]), actions[1..]);
    }
  }

  /** Hence no such run takes any of one token without leaving more of the other. */
  lemma NoFreeLunch(p: Pool, actions: seq<Action>)
    requires BothBalanced(p) && AllAdmissible(p, actions) && AllCover(p, actions)
    requires p.book0.side.reserve > 0 && p.book1.side.reserve > 0
    ensures var p' := Play(p, actions);
      && (p'.book0.side.reserve < p.book0.side.reserve ==> p.book1.side.reserve < p'.book1.side.reserve)
      && (p'.book1.side.reserve < p.book1.side.reserve ==> p.book0.side.reserve < p'.book0.side.reserve)
  {
    PlayKeepsK(p, actions);
    var p' := Play(p, actions);
    var x, y, x', y' := p.book0.side.reserve, p.book1.side.reserve, p'.book0.side.reserve, p'.book1.side.reserve;
    LessNeedsMore(x, y, x', y');
    LessNeedsMore(y, x, y', x');
  }

  lemma LessNeedsMore(x: nat, y: nat, x': nat, y': nat)
    requires y > 0 && x * y <= x' * y'
    ensures x' < x ==> y < y'
  {
    if x' < x && y' <= y {
      MulMono(x', x - 1, y', y);
      DistributeMinus(x, 1, y);
    }
  }
}
