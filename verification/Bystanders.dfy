/** What the other positions of a book notice of one position's instructions: borrowing and
    repaying never charge them, and a liquidation charges each at most one unit. */
module Bystanders {
  import opened Words
  import opened Nonlinear
  import opened Ledger
  import opened Fairness
  import opened Books

  /** Floor rounding of the written-off debt lets debt per share rise a little: by less than
      one unit spread over all remaining shares. */
  lemma SlightlyDearer(other: nat, d: nat, t: nat, w: nat, amount: nat)
    requires w <= t && amount <= d && other <= t - w && 0 < t - w
    requires w * d < (amount + 1) * t
    ensures Ceil(other * (d - amount), t - w) <= Ceil(other * d, t) + 1
  {
    var d', t', c := d - amount, t - w, Ceil(other * d, t);
    CeilSpec(other * d, t);
    assert d' * t <= d * t' + t by {
      DistributeMinus(d, amount, t);
      DistributeMinus(t, w, d);
      Distribute(amount, 1, t);
    }
    calc {
      (other * d') * t;
    ==  { Associate(other, d', t); }
      other * (d' * t);
    <=  { MulMono(0, d', 0, t); MulMono(other, other, d' * t, d * t' + t); }
      other * (d * t' + t);
    ==  { Distribute(d * t', t, other); Associate(other, d, t'); }
      (other * d) * t' + other * t;
    <=  { MulMono(0, other, 0, d); MulMono(other * d, c * t, t', t'); MulMono(other, t', t, t); }
      (c * t) * t' + t' * t;
    ==  { Associate(c, t, t'); Associate(c, t', t); Distribute(c, 1, t'); Distribute(c * t', t', t); }
      ((c + 1) * t') * t;
    }
    CancelLe(other * d', (c + 1) * t', t);
    CeilAtMost(c + 1, other * d', t');
  }

  /** The debt written off is the whole part of what the written-off shares carry: the clamp to
      the position's own debt never bites. */
  lemma WrittenOffIsFloor(s: Side, mine: u128, insolvent: bool)
    requires LiquidateSide(s, mine, insolvent).Ok? && mine <= s.shares && s.debt <= s.reserve
    ensures var (amount, s', mine') := LiquidateSide(s, mine, insolvent).value;
      && mine' <= mine && amount == (mine - mine') * s.debt / s.shares
  {
    var owed := DebtOf(mine, s.debt, s.shares).value;
    var w := LiquidationShares(mine, insolvent).value;
    PartOfDebt(w, s.debt, s.shares);
    LiquidationDebtValue(s, owed, w);
    DebtOfIsCeil(mine, s.debt, s.shares);
    FloorBelowCeil(w, mine, s.debt, s.shares);
  }

  lemma FloorBelowCeil(w: nat, mine: nat, d: nat, t: nat)
    requires w <= mine && t > 0
    ensures w * d / t <= Ceil(mine * d, t)
  {
    MulMono(w, mine, d, d);
    FloorMono(w * d, mine * d + t - 1, t);
  }

  /** A liquidation raises what any other position reads as owing by at most one unit. */
  lemma LiquidationChargesAtMostOneUnit(s: Side, mine: u128, other: u128, insolvent: bool)
    requires LiquidateSide(s, mine, insolvent).Ok? && mine + other <= s.shares && s.debt <= s.reserve
    ensures Owed(other, LiquidateSide(s, mine, insolvent).value.1) <= Owed(other, s) + 1
  {
    var (amount, s', mine') := LiquidateSide(s, mine, insolvent).value;
    LiquidationValue(s, mine, insolvent);
    WrittenOffIsFloor(s, mine, insolvent);
    MulMono(0, other, 0, s.debt);
    CeilAtMost(-1, other * s.debt, s.shares);
    if s'.shares > 0 {
      FloorSpec((mine - mine') * s.debt, s.shares);
      SlightlyDearer(other, s.debt, s.shares, mine - mine', amount);
    }
  }

  /** The rounding slack of the bystander's reading is smaller than its part of the debt that
      flooring leaves behind. All of it is known before the call. */
  predicate SlackTooSmall(other: nat, d: nat, t: nat, w: nat)
    requires t > 0
  {
    ((-(other * d)) % t) * (t - w) < other * ((w * d) % t)
  }

  /** Exactly then a liquidation charges the bystander its one unit. */
  lemma LiquidationChargesIff(s: Side, mine: u128, other: u128, insolvent: bool)
    requires LiquidateSide(s, mine, insolvent).Ok? && mine + other <= s.shares && s.debt <= s.reserve
    ensures s.shares > 0 && LiquidationShares(mine, insolvent).Ok?
    ensures var w := LiquidationShares(mine, insolvent).value;
      Owed(other, LiquidateSide(s, mine, insolvent).value.1) > Owed(other, s) <==>
        SlackTooSmall(other, s.debt, s.shares, w)
  {
    var w := LiquidationShares(mine, insolvent).value;
    LiquidatedDebtSide(s, mine, insolvent);
    if w < s.shares {
      ChargedIff(other, s.debt, s.shares, w);
    } else {
      NobodyLeft(s.debt, s.shares);
    }
  }

  lemma LiquidatedDebtSide(s: Side, mine: u128, insolvent: bool)
    requires LiquidateSide(s, mine, insolvent).Ok? && mine <= s.shares && s.debt <= s.reserve
    ensures s.shares > 0 && LiquidationShares(mine, insolvent).Ok?
    ensures var w, s' := LiquidationShares(mine, insolvent).value, LiquidateSide(s, mine, insolvent).value.1;
      && w <= mine && 0 <= w * s.debt / s.shares <= s.debt
      && s'.shares == s.shares - w && s'.debt == s.debt - w * s.debt / s.shares
  {
    LiquidationValue(s, mine, insolvent);
    WrittenOffIsFloor(s, mine, insolvent);
  }

  lemma NobodyLeft(d: nat, t: nat)
    requires t > 0
    ensures !SlackTooSmall(0, d, t, t)
    ensures Ceil(0 * d, t) == 0
  {
    CeilAtMost(0, 0, t);
    CeilAtMost(-1, 0, t);
  }

  lemma ChargedIff(other: nat, d: nat, t: nat, w: nat)
    requires w < t && 0 <= w * d / t <= d
    ensures Ceil(other * (d - w * d / t), t - w) > Ceil(other * d, t) <==> SlackTooSmall(other, d, t, w)
  {
    var r, slack := (w * d) % t, (-(other * d)) % t;
    var d', t', c := d - w * d / t, t - w, Ceil(other * d, t);
    CeilAtMost(c, other * d', t');
    CeilSlack(other * d, t);
    // d' * t == d * t' + r, so the two sides of c * t' < other * d' are compared times t
    assert d' * t == d * t' + r by {
      DistributeMinus(d, w * d / t, t);
      DistributeMinus(t, w, d);
    }
    calc {
      (other * d' - c * t') * t;
    ==  { DistributeMinus(other * d', c * t', t); Associate(other, d', t); Associate(c, t', t); }
      other * (d' * t) - (c * t) * t';
    ==  { Distribute(d * t', r, other); Associate(other, d, t'); }
      other * r + (other * d) * t' - (c * t) * t';
    ==  { DistributeMinus(c * t, other * d, t'); }
      other * r - slack * t';
    }
    SameSign(other * d' - c * t', t, other * r - slack * t');
  }

  /** Rounding a quotient up adds the remainder of the negated dividend. */
  lemma CeilSlack(a: int, b: int)
    requires b > 0
    ensures Ceil(a, b) * b - a == (-a) % b
  {
    CeilSpec(a, b);
    var c := Ceil(a, b);
    DistributeMinus(c, 1, b);
    RemainderIs(-a, b, -c, c * b - a);
  }

  lemma RemainderIs(a: int, b: int, q: int, r: int)
    requires b > 0 && 0 <= r < b && a == q * b + r
    ensures a % b == r
  {
    FloorAtLeast(q, a, b);
    Distribute(q, 1, b);
    FloorAtLeast(q + 1, a, b);
    assert a / b == q;
  }

  /** In particular nobody is charged when the written-off shares carry a whole amount. */
  lemma WholeWriteOffChargesNobody(s: Side, mine: u128, other: u128, insolvent: bool)
    requires LiquidateSide(s, mine, insolvent).Ok? && mine + other <= s.shares && s.debt <= s.reserve
    requires s.shares > 0 && (LiquidationShares(mine, insolvent).value * s.debt) % s.shares == 0
    ensures Owed(other, LiquidateSide(s, mine, insolvent).value.1) <= Owed(other, s)
  {
    LiquidationChargesIff(s, mine, other, insolvent);
    LiquidatedDebtSide(s, mine, insolvent);
    MulMono(0, (-(other * s.debt)) % s.shares, 0, s.shares - LiquidationShares(mine, insolvent).value);
  }

  // ---------------------------------------------------------------- steps and runs

  /** Steps of other positions, of liquidity and of swaps: not accrual, which charges everyone. */
  predicate Elsewhere(step: Step, me: nat) {
    match step
    case Accrue(_, _) => false
    case WriteDown(_, _, _) => false
    case Borrow(who, _) => who != me
    case Repay(who, _) => who != me
    case RepayAll(who) => who != me
    case Liquidate(who, _) => who != me
    case _ => true
  }

  function Toll(step: Step): nat {
    if step.Liquidate? then 1 else 0
  }

  lemma BothBelowTotal(xs: seq<u128>, i: nat, j: nat)
    requires i != j && i < |xs| && j < |xs|
    ensures xs[i] + xs[j] <= Total(xs)
  {
    if i < j {
      TwoPartsBelowTotal(xs, i, j);
    } else {
      TwoPartsBelowTotal(xs, j, i);
    }
  }

  lemma RepaymentChargesNobody(s: Side, mine: u128, other: u128, requested: Option<u64>)
    requires RepaySide(s, mine, requested).Ok? && mine + other <= s.shares
    ensures Owed(other, RepaySide(s, mine, requested).value.0) <= Owed(other, s)
  {
    var owed := DebtOf(mine, s.debt, s.shares).value;
    DebtOfIsCeil(mine, s.debt, s.shares);
    MulMono(mine, s.shares, s.debt, s.debt);
    CeilAtMost(s.debt, mine * s.debt, s.shares);
    var amount := match requested case Some(a) => a case None => owed;
    RepaymentNeverFavoursPayer(s, mine, other, amount);
  }

  lemma StepElsewhere(b: Book, step: Step, me: nat)
    requires Sound(b) && Unsaturated(b, step) && me < |b.holdings| && Elsewhere(step, me)
    requires Next(b, step).Ok?
    ensures var b' := Next(b, step).value;
      && me < |b'.holdings| && b'.holdings[me] == b.holdings[me]
      && Owed(b.holdings[me], b'.side) <= Owed(b.holdings[me], b.side) + Toll(step)
  {
    var s, other := b.side, b.holdings[me];
    match step
    case Borrow(who, amount) =>
      BothBelowTotal(b.holdings, who, me);
      IncreaseValue(s, b.holdings[who], amount);
      BorrowNeverFavoursBorrower(s, b.holdings[who], other, amount);
    case Repay(who, amount) =>
      BothBelowTotal(b.holdings, who, me);
      RepaymentChargesNobody(s, b.holdings[who], other, Some(amount));
    case RepayAll(who) =>
      BothBelowTotal(b.holdings, who, me);
      RepaymentChargesNobody(s, b.holdings[who], other, None);
    case Liquidate(who, insolvent) =>
      BothBelowTotal(b.holdings, who, me);
      LiquidationChargesAtMostOneUnit(s, b.holdings[who], other, insolvent);
    case _ =>
  }

  function Tolls(steps: seq<Step>): nat {
    if steps == [] then 0 else Toll(steps[0]) + Tolls(steps[1..])
  }

  /** Over any run of everybody else's instructions between two accruals, a position's shares
      stay put and its debt rises by at most one unit per liquidation. */
  lemma {:induction false} RunElsewhere(b: Book, steps: seq<Step>, me: nat)
    requires Sound(b) && Regular(b, steps) && me < |b.holdings|
    requires forall step <- steps :: Elsewhere(step, me)
    ensures var end := Run(b, steps);
      && me < |end.holdings| && end.holdings[me] == b.holdings[me]
      && Owed(b.holdings[me], end.side) <= Owed(b.holdings[me], b.side) + Tolls(steps)
    decreases |steps|
  {
    if steps != [] {
      assert steps[0] in steps;
      if Next(b, steps[0]).Ok? {
        StepElsewhere(b, steps[0], me);
        StepKeepsSound(b, steps[0]);
      }
      RunElsewhere(After(b, steps[0]), steps[1..], me);
    }
  }
}
