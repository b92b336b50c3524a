/** One token side together with every position's shares of it, as a state machine. Each step
    is what one instruction does to this side; a failing instruction changes nothing. */
module Books {
  import opened Words
  import opened Nonlinear
  import opened Kernels
  import opened Ledger
  import opened Fairness

  datatype Book = Book(side: Side, holdings: seq<u128>)

  datatype Step =
    | Open
    | Accrue(integral: u64, interestBps: u16)
    | Borrow(who: nat, amount: u64)
    | Repay(who: nat, amount: u64)
    | RepayAll(who: nat)
    | Liquidate(who: nat, insolvent: bool)
    | WriteDown(who: nat, exactShares: u128, amount: u64)
    | TakeIn(amount: u64)
    | PayOut(amount: u64)

  // ---------------------------------------------------------------- the steps

  /** Interest of one window: borrowers pay interest and, on top, the protocol fee; the fee
      leaves cash as far as cash lasts and stays in the virtual reserve for the rest. */
  function AccrueSide(s: Side, integral: u64, interestBps: u16): Result<Side> {
    MulMono(s.debt, U64_MAX, integral, U64_MAX);
    var interest :- OkOr(CeilDiv(s.debt * integral, NAD), DebtMathOverflow);
    var feeExact :- OkOr(CheckedMul(interest, interestBps), Panic);
    var fee := Min(feeExact / BPS, U64_MAX);
    var lpInterest := Min(interest, U64_MAX);
    var cost :- OkOr(CheckedAdd(interest, fee), Panic);
    var cost64 :- OkOr(ToU64(cost), Panic);
    var debt :- OkOr(CheckedAdd64(s.debt, cost64), Panic);
    var covered := Min(fee, s.cash);
    var growth :- OkOr(CheckedAdd64(lpInterest, fee - covered), Panic);
    Ok(Side(SaturatingAdd64(s.reserve, growth), s.cash - covered, debt, s.shares))
  }

  /** Shares a liquidation writes off: all of them, or half rounded up. */
  function LiquidationShares(mine: u128, insolvent: bool): Result<u128> {
    if insolvent then Ok(mine)
    else
      var scaled :- OkOr(CheckedMul(mine, CLOSE_FACTOR_BPS), DebtMathOverflow);
      var half :- OkOr(CeilDiv(scaled, BPS), DebtMathOverflow);
      Ok(Min(mine, half))
  }

  /** Debt that goes with those shares, rounded down and at most what is owed. */
  function LiquidationDebt(s: Side, owed: u64, shares: u128): Result<u64> {
    if s.shares == 0 then Ok(0)
    else
      var product :- OkOr(CheckedMul(shares, s.debt), DebtMathOverflow);
      FloorAntitone(product, 1, s.shares);
      Ok(Min(owed, AsU64(product / s.shares)))
  }

  /** The debt side of one liquidation: the amount written off and the state after it. */
  function LiquidateSide(s: Side, mine: u128, insolvent: bool): Result<(u64, Side, u128)> {
    var _ :- Require(mine > 0, ZeroDebtAmount);
    var owed :- DebtOf(mine, s.debt, s.shares);
    var shares :- LiquidationShares(mine, insolvent);
    var amount :- LiquidationDebt(s, owed, shares);
    var next :- Decrease(s, mine, amount, WriteOff(shares));
    Ok((amount, next.0, next.1))
  }

  /** The repay handler admits at most what the position owes, and something must be owed. */
  function RepaySide(s: Side, mine: u128, requested: Option<u64>): Result<(Side, u128)> {
    var _ :- Require(requested != Some(0), AmountZero);
    var owed :- DebtOf(mine, s.debt, s.shares);
    var amount := match requested case Some(a) => a case None => owed;
    var _ :- Require(amount <= owed, InsufficientDebt);
    var _ :- Require(owed > 0, ZeroDebtAmount);
    Decrease(s, mine, amount, Repayment)
  }

  function TakeInSide(s: Side, amount: u64): Result<Side> {
    var reserve :- OkOr(CheckedAdd64(s.reserve, amount), Overflow);
    Ok(s.(reserve := reserve, cash := SaturatingAdd64(s.cash, amount)))
  }

  function PayOutSide(s: Side, amount: u64): Result<Side> {
    var reserve :- OkOr(CheckedSub64(s.reserve, amount), Overflow);
    var _ :- Require(s.cash >= amount, InsufficientCashReserve);
    Ok(s.(reserve := reserve, cash := s.cash - amount))
  }

  function Put(b: Book, who: nat, next: (Side, u128)): Book
    requires who < |b.holdings|
  {
    Book(next.0, b.holdings[who := next.1])
  }

  function Next(b: Book, step: Step): Result<Book> {
    match step
    case Open => Ok(b.(holdings := b.holdings + [0]))
    case Accrue(integral, bps) =>
      var s :- AccrueSide(b.side, integral, bps);
      Ok(b.(side := s))
    case Borrow(who, amount) =>
      var _ :- Require(who < |b.holdings|, Panic);
      var next :- Increase(b.side, b.holdings[who], amount);
      Ok(Put(b, who, next))
    case Repay(who, amount) =>
      var _ :- Require(who < |b.holdings|, Panic);
      var next :- RepaySide(b.side, b.holdings[who], Some(amount));
      Ok(Put(b, who, next))
    case RepayAll(who) =>
      var _ :- Require(who < |b.holdings|, Panic);
      var next :- RepaySide(b.side, b.holdings[who], None);
      Ok(Put(b, who, next))
    case Liquidate(who, insolvent) =>
      var _ :- Require(who < |b.holdings|, Panic);
      var next :- LiquidateSide(b.side, b.holdings[who], insolvent);
      Ok(Put(b, who, (next.1, next.2)))
    case WriteDown(who, exact, amount) =>
      var _ :- Require(who < |b.holdings|, Panic);
      var next :- Decrease(b.side, b.holdings[who], amount, WriteOff(exact));
      Ok(Put(b, who, next))
    case TakeIn(amount) =>
      var s :- TakeInSide(b.side, amount);
      Ok(b.(side := s))
    case PayOut(amount) =>
      var s :- PayOutSide(b.side, amount);
      Ok(b.(side := s))
  }

  // ---------------------------------------------------------------- the invariant

  function Total(xs: seq<u128>): nat {
    if xs == [] then 0 else xs[0] + Total(xs[1..])
  }

  lemma {:induction false} TotalPut(xs: seq<u128>, i: nat, v: u128)
    requires i < |xs|
    ensures Total(xs[i := v]) == Total(xs) - xs[i] + v
  {
    if i == 0 {
      assert xs[0 := v][1..] == xs[1..];
    } else {
      TotalPut(xs[1..], i - 1, v);
      assert xs[i := v][1..] == xs[1..][i - 1 := v];
    }
  }

  lemma {:induction false} TotalAppendZero(xs: seq<u128>)
    ensures Total(xs + [0]) == Total(xs)
  {
    if xs == [] {
      assert Total([0]) == 0 + Total([0][1..]);
    } else {
      TotalAppendZero(xs[1..]);
      assert (xs + [0])[1..] == xs[1..] + [0];
    }
  }

  lemma {:induction false} PartBelowTotal(xs: seq<u128>, i: nat)
    requires i < |xs|
    ensures xs[i] <= Total(xs)
  {
    if i > 0 {
      PartBelowTotal(xs[1..], i - 1);
    }
  }

  /** Two different positions hold at most everything. */
  lemma {:induction false} TwoPartsBelowTotal(xs: seq<u128>, i: nat, j: nat)
    requires i < j < |xs|
    ensures xs[i] + xs[j] <= Total(xs)
  {
    if i == 0 {
      PartBelowTotal(xs[1..], j - 1);
    } else {
      TwoPartsBelowTotal(xs[1..], i - 1, j - 1);
    }
  }

  /** Shares add up, no debt without shares, and cash plus debt never exceed the reserve. */
  predicate Sound(b: Book) {
    && Total(b.holdings) == b.side.shares
    && Tidy(b.side)
    && b.side.cash + b.side.debt <= b.side.reserve
  }

  /** The documented identity: virtual reserve = cash + debt. */
  predicate Balanced(b: Book) {
    Sound(b) && b.side.reserve == b.side.cash + b.side.debt
  }

  /** The two additions that could saturate do not: minted shares, and interest on the reserve. */
  predicate Unsaturated(b: Book, step: Step) {
    match step
    case Borrow(_, amount) => MintFits(b.side, amount)
    case Accrue(integral, bps) =>
      var s := AccrueSide(b.side, integral, bps);
      s.Ok? ==> s.value.cash + s.value.debt + (b.side.reserve - b.side.cash - b.side.debt) <= U64_MAX
    case _ => true
  }

  // ---------------------------------------------------------------- each step keeps it

  lemma AccrueValue(s: Side, integral: u64, bps: u16)
    requires AccrueSide(s, integral, bps).Ok?
    ensures var s' := AccrueSide(s, integral, bps).value;
      && s'.shares == s.shares
      && s'.cash <= s.cash && s'.debt >= s.debt
      && s'.reserve == Min(s'.cash + s'.debt + (s.reserve - s.cash - s.debt), U64_MAX)
      && s.reserve <= s'.reserve
      && (s.debt == 0 ==> s'.debt == 0)
  {
    MulMono(s.debt, U64_MAX, integral, U64_MAX);
    CeilDivIsCeil(s.debt * integral, NAD);
    MulMono(0, s.debt, 0, integral);
  }

  /** With the amounts the liquidation computes itself, the fallback reserve of one is never
      used and the orphan-debt reset never fires: all shares go only with all debt. */
  lemma LiquidationValue(s: Side, mine: u128, insolvent: bool)
    requires LiquidateSide(s, mine, insolvent).Ok? && mine <= s.shares && s.debt <= s.reserve
    ensures var (amount, s', mine') := LiquidateSide(s, mine, insolvent).value;
      && amount <= s.debt
      && (s'.shares == 0 ==> amount == s.debt)
      && s'.reserve == s.reserve - amount && s'.debt == s.debt - amount && s'.cash == s.cash
      && mine' <= mine && s'.shares == s.shares - (mine - mine')
  {
    var owed := DebtOf(mine, s.debt, s.shares).value;
    var w := LiquidationShares(mine, insolvent).value;
    PartOfDebt(w, s.debt, s.shares);
    LiquidationDebtValue(s, owed, w);
    if w == s.shares {
      DebtOfIsCeil(mine, s.debt, s.shares);
      WholeCeil(s.shares, s.debt);
    }
  }

  lemma LiquidationDebtValue(s: Side, owed: u64, w: u128)
    requires s.shares > 0 && 0 <= w * s.debt / s.shares <= s.debt
    requires LiquidationDebt(s, owed, w).Ok?
    ensures LiquidationDebt(s, owed, w).value == Min(owed, w * s.debt / s.shares)
  {
  }

  /** w of the shares carry at most the whole debt, and all of them exactly that. */
  lemma PartOfDebt(w: nat, debt: nat, shares: nat)
    requires w <= shares && shares > 0
    ensures 0 <= w * debt / shares <= debt
    ensures w == shares ==> w * debt / shares == debt
  {
    MulMono(0, w, 0, debt);
    MulMono(w, shares, debt, debt);
    FloorAtLeast(0, w * debt, shares);
    FloorMono(w * debt, shares * debt, shares);
    ProductQuotient(shares, debt);
  }

  /** A holder of every share owes the whole debt. */
  lemma WholeCeil(shares: nat, debt: nat)
    requires shares > 0
    ensures Ceil(shares * debt, shares) == debt
  {
    CeilAtMost(debt, shares * debt, shares);
    CeilAtMost(debt - 1, shares * debt, shares);
    DistributeMinus(debt, 1, shares);
  }

  lemma ProductQuotient(a: nat, b: nat)
    requires a > 0
    ensures a * b / a == b
  {
    FloorAtLeast(b, a * b, a);
    FloorAtLeast(b + 1, a * b, a);
    Distribute(b, 1, a);
  }

  /** A write-off by exact shares keeps solvency; only the orphan reset opens a gap, as wide
      as the debt it drops. */
  lemma WriteOffValue(s: Side, mine: u128, exact: u128, amount: u64)
    requires Decrease(s, mine, amount, WriteOff(exact)).Ok? && mine <= s.shares
    requires amount <= s.debt && s.cash + s.debt <= s.reserve
    ensures var (s', mine') := Decrease(s, mine, amount, WriteOff(exact)).value;
      var dropped := if Orphans(s, mine, amount, WriteOff(exact)) then s.debt - amount else 0;
      && s'.reserve == s.reserve - amount && s'.cash == s.cash
      && s'.debt == s.debt - amount - dropped
      && mine' <= mine && s'.shares == s.shares - (mine - mine')
  {
  }

  /** What each step does to the gap between reserve and cash plus debt. */
  function Gap(s: Side): int {
    s.reserve - s.cash - s.debt
  }

  lemma RepaySideValue(s: Side, mine: u128, requested: Option<u64>)
    requires RepaySide(s, mine, requested).Ok? && mine <= s.shares && s.cash + s.debt <= s.reserve
    ensures var (s', mine') := RepaySide(s, mine, requested).value;
      && Gap(s') == Gap(s) && s'.reserve == s.reserve && s'.debt <= s.debt
      && mine' <= mine && s'.shares == s.shares - (mine - mine')
      && (s'.shares == 0 ==> s'.debt == 0)
  {
    var owed := DebtOf(mine, s.debt, s.shares).value;
    DebtOfIsCeil(mine, s.debt, s.shares);
    MulMono(mine, s.shares, s.debt, s.debt);
    CeilAtMost(s.debt, mine * s.debt, s.shares);
    var amount := match requested case Some(a) => a case None => owed;
    RepayParts(s, mine, amount);
    RepaymentNeverOrphans(s, mine, amount);
  }

  /** Any write-off the ledger accepts, with an amount of at most the outstanding debt. */
  predicate WithinDebt(b: Book, step: Step) {
    step.WriteDown? ==> step.amount <= b.side.debt
  }

  lemma BorrowKeepsSound(b: Book, who: nat, amount: u64)
    requires Sound(b) && Unsaturated(b, Borrow(who, amount)) && Next(b, Borrow(who, amount)).Ok?
    ensures var b' := Next(b, Borrow(who, amount)).value;
      Sound(b') && Gap(b'.side) == Gap(b.side)
  {
    var s, mine := b.side, b.holdings[who];
    PartBelowTotal(b.holdings, who);
    IncreaseValue(s, mine, amount);
    if s.shares > 0 {
      BorrowIsNoDearer(s, mine, amount);
    }
    TotalPut(b.holdings, who, Increase(s, mine, amount).value.1);
  }

  /** A write-down of given shares that leaves debt without shares: the reset drops it. */
  predicate OrphansDebt(b: Book, step: Step) {
    && step.WriteDown? && step.who < |b.holdings|
    && Orphans(b.side, b.holdings[step.who], step.amount, WriteOff(step.exactShares))
  }

  /** One step keeps a book sound, and opens the gap exactly when it orphans debt. */
  lemma StepKeepsSound(b: Book, step: Step)
    requires Sound(b) && Unsaturated(b, step) && WithinDebt(b, step) && Next(b, step).Ok?
    ensures var b' := Next(b, step).value;
      && Sound(b')
      && Gap(b.side) <= Gap(b'.side)
      && (Gap(b'.side) == Gap(b.side) <==> !OrphansDebt(b, step))
  {
    var s := b.side;
    match step
    case Open =>
      TotalAppendZero(b.holdings);
    case Accrue(integral, bps) =>
      AccrueValue(s, integral, bps);
    case Borrow(who, amount) =>
      BorrowKeepsSound(b, who, amount);
    case Repay(who, amount) =>
      PartBelowTotal(b.holdings, who);
      RepaySideValue(s, b.holdings[who], Some(amount));
      TotalPut(b.holdings, who, RepaySide(s, b.holdings[who], Some(amount)).value.1);
    case RepayAll(who) =>
      PartBelowTotal(b.holdings, who);
      RepaySideValue(s, b.holdings[who], None);
      TotalPut(b.holdings, who, RepaySide(s, b.holdings[who], None).value.1);
    case Liquidate(who, insolvent) =>
      PartBelowTotal(b.holdings, who);
      LiquidationValue(s, b.holdings[who], insolvent);
      TotalPut(b.holdings, who, LiquidateSide(s, b.holdings[who], insolvent).value.2);
    case WriteDown(who, exact, amount) =>
      PartBelowTotal(b.holdings, who);
      WriteOffValue(s, b.holdings[who], exact, amount);
      TotalPut(b.holdings, who, Decrease(s, b.holdings[who], amount, WriteOff(exact)).value.1);
    case TakeIn(amount) =>
    case PayOut(amount) =>
  }

  // ---------------------------------------------------------------- runs

  /** A run skips the instructions that fail. */
  function Run(b: Book, steps: seq<Step>): Book
    decreases |steps|
  {
    if steps == [] then b else Run(After(b, steps[0]), steps[1..])
  }

  function After(b: Book, step: Step): Book {
    match Next(b, step) case Ok(next) => next case Err(_) => b
  }

  predicate Regular(b: Book, steps: seq<Step>)
    decreases |steps|
  {
    steps == [] ||
    (Unsaturated(b, steps[0]) && WithinDebt(b, steps[0]) && Regular(After(b, steps[0]), steps[1..]))
  }

  /** Over every run the shares add up and the side stays solvent. */
  lemma {:induction false} RunKeepsSound(b: Book, steps: seq<Step>)
    requires Sound(b) && Regular(b, steps)
    ensures Sound(Run(b, steps))
    decreases |steps|
  {
    if steps != [] {
      if Next(b, steps[0]).Ok? {
        StepKeepsSound(b, steps[0]);
      }
      RunKeepsSound(After(b, steps[0]), steps[1..]);
    }
  }

  predicate NoOrphans(b: Book, steps: seq<Step>)
    decreases |steps|
  {
    steps == [] || (!OrphansDebt(b, steps[0]) && NoOrphans(After(b, steps[0]), steps[1..]))
  }

  /** Over every run in which no write-down orphans debt the identity reserve = cash + debt is
      exact. The program's own liquidations never do, so they are admitted without a premise. */
  lemma {:induction false} RunKeepsBalance(b: Book, steps: seq<Step>)
    requires Balanced(b) && Regular(b, steps) && NoOrphans(b, steps)
    ensures Balanced(Run(b, steps))
    decreases |steps|
  {
    if steps != [] {
      if Next(b, steps[0]).Ok? {
        StepKeepsSound(b, steps[0]);
      }
      RunKeepsBalance(After(b, steps[0]), steps[1..]);
    }
  }

  // ---------------------------------------------------------------- sum of the readings

  function TotalOwed(xs: seq<u128>, s: Side): int {
    if xs == [] then 0 else Owed(xs[0], s) + TotalOwed(xs[1..], s)
  }

  lemma {:induction false} OwedBracket(xs: seq<u128>, s: Side)
    requires s.shares > 0
    ensures Total(xs) * s.debt <= TotalOwed(xs, s) * s.shares
    ensures TotalOwed(xs, s) * s.shares <= Total(xs) * s.debt + |xs| * (s.shares - 1)
  {
    if xs != [] {
      OwedBracket(xs[1..], s);
      CeilSpec(xs[0] * s.debt, s.shares);
      Distribute(xs[0], Total(xs[1..]), s.debt);
      Distribute(Owed(xs[0], s), TotalOwed(xs[1..], s), s.shares);
      DistributeMinus(Owed(xs[0], s), 1, s.shares);
      Distribute(1, |xs[1..]|, s.shares - 1);
    }
  }

  /** What all positions together read as owing covers the total debt and exceeds it by less
      than one unit per position. */
  lemma ReadingsCoverDebt(b: Book)
    requires Sound(b) && b.side.shares > 0
    ensures b.side.debt <= TotalOwed(b.holdings, b.side) < b.side.debt + |b.holdings|
  {
    var s, sum, n := b.side, TotalOwed(b.holdings, b.side), |b.holdings|;
    OwedBracket(b.holdings, s);
    CancelLe(s.debt, sum, s.shares);
    assert n > 0;
    DistributeMinus(s.shares, 1, n);
    Distribute(s.debt, n, s.shares);
    CancelLt(sum, s.debt + n, s.shares);
  }

  /** The bracket holds at the end of every run. */
  lemma RunReadingsCoverDebt(b: Book, steps: seq<Step>)
    requires Sound(b) && Regular(b, steps)
    ensures var end := Run(b, steps);
      end.side.shares > 0 ==>
        end.side.debt <= TotalOwed(end.holdings, end.side) < end.side.debt + |end.holdings|
  {
    RunKeepsSound(b, steps);
    var end := Run(b, steps);
    if end.side.shares > 0 {
      ReadingsCoverDebt(end);
    }
  }

  // ---------------------------------------------------------------- debt gone, shares left

  /** Once a side has shares but no debt, every borrow on it fails until the shares are gone. */
  lemma NoBorrowWithoutDebt(s: Side, mine: u128, amount: u64)
    requires s.shares > 0 && s.debt == 0
    ensures Increase(s, mine, amount).Err?
  {
    IncreaseValue(s, mine, amount);
  }
}
