/** Rounding in the debt ledger: it never favours whoever acts, and never touches others. */
module Fairness {
  import opened Words
  import opened Nonlinear
  import opened Kernels
  import opened Ledger

  /** What a holder of `mine` shares owes, over unbounded integers. */
  function Owed(mine: nat, s: Side): int {
    if s.shares == 0 then 0 else Ceil(mine * s.debt, s.shares)
  }

  /** The program's reading, whenever it does not overflow, is exactly that. */
  lemma DebtOfIsOwed(mine: u128, s: Side)
    requires DebtOf(mine, s.debt, s.shares).Ok?
    ensures DebtOf(mine, s.debt, s.shares).value == Owed(mine, s)
  {
    if s.shares > 0 {
      DebtOfIsCeil(mine, s.debt, s.shares);
    }
  }

  /** No debt without shares. */
  predicate Tidy(s: Side) {
    s.shares == 0 ==> s.debt == 0
  }

  // ---------------------------------------------------------------- the two share laws

  /** Debt per share does not rise: D' / T' <= D / T. */
  ghost predicate NoDearer(d: nat, t: nat, d': nat, t': nat) {
    d' * t <= d * t'
  }

  /** Then no other holder owes more than before. */
  lemma OthersNotCharged(other: nat, d: nat, t: nat, d': nat, t': nat)
    requires t > 0 && t' > 0 && NoDearer(d, t, d', t')
    ensures Ceil(other * d', t') <= Ceil(other * d, t)
  {
    var c := Ceil(other * d, t);
    CeilSpec(other * d, t);
    MulMono(0, other, 0, d);
    calc {
      (other * d') * t;
    ==  { Associate(other, d', t); }
      other * (d' * t);
    <=  { MulMono(other, other, d' * t, d * t'); MulMono(0, d', 0, t); }
      other * (d * t');
    ==  { Associate(other, d, t'); }
      (other * d) * t';
    <=  { MulMono(other * d, c * t, t', t'); }
      (c * t) * t';
    ==  { Associate(c, t, t'); Associate(c, t', t); }
      (c * t') * t;
    }
    CancelLe(other * d', c * t', t);
    CeilAtMost(c, other * d', t');
  }

  /** And the holder whose shares changed bears the whole change of the total. */
  lemma ActorBearsChange(mine: nat, d: nat, t: nat, mine': nat, d': nat, t': nat)
    requires 0 < t && 0 < t' && mine <= t && mine' <= t' && t - mine == t' - mine'
    requires NoDearer(d, t, d', t')
    ensures Ceil(mine' * d', t') >= Ceil(mine * d, t) + (d' - d)
  {
    var c := Ceil(mine * d, t);
    var q := c + (d' - d) - 1;
    CeilSpec(mine * d, t);
    var rest := t - mine;
    assert rest * (d' * t) <= rest * (d * t') by {
      MulMono(0, d', 0, t);
      MulMono(rest, rest, d' * t, d * t');
    }
    // (mine' * d') * t >= t' * (mine * d + (d' - d) * t) > t' * (q * t)
    assert (mine' * d') * t >= t' * (mine * d + (d' - d) * t) by {
      ShareExpansion(mine, d, t, mine', d', t');
    }
    assert q * t < mine * d + (d' - d) * t by { Distribute(c - 1, d' - d, t); }
    TimesPositive(q * t, mine * d + (d' - d) * t, t');
    assert t' * (q * t) == (q * t') * t by { Associate(q, t, t'); }
    CancelLt(q * t', mine' * d', t);
    CeilAtMost(q, mine' * d', t');
  }

  lemma ShareExpansion(mine: nat, d: nat, t: nat, mine': nat, d': nat, t': nat)
    requires mine <= t && mine' <= t' && t - mine == t' - mine'
    requires (t - mine) * (d' * t) <= (t - mine) * (d * t')
    ensures (mine' * d') * t >= t' * (mine * d + (d' - d) * t)
  {
    var rest := t - mine;
    var u, v := d' * t, d * t';
    calc {
      (mine' * d') * t;
    ==  { Associate(mine', d', t); DistributeMinus(t', rest, u); }
      t' * u - rest * u;
    >=
      t' * u - rest * v;
    ==  { DistributeMinus(t, mine, v); }
      t' * u - t * v + mine * v;
    ==  { Associate(mine, d, t'); Associate(t, d, t'); }
      t' * u - t' * (d * t) + t' * (mine * d);
    ==  { DistributeMinus(d', d, t); DistributeMinus(u, d * t, t'); Distribute(mine * d, (d' - d) * t, t'); }
      t' * (mine * d + (d' - d) * t);
    }
  }

  // ---------------------------------------------------------------- borrowing

  /** Shares minted fit 128 bits; every other saturating addition is harmless (see Books). */
  predicate MintFits(s: Side, amount: u64) {
    var minted := SharesForBorrow(s, amount);
    minted.Ok? ==> s.shares + minted.value <= U128_MAX
  }

  lemma BorrowIsNoDearer(s: Side, mine: u128, amount: u64)
    requires Increase(s, mine, amount).Ok? && s.shares > 0
    requires MintFits(s, amount) && s.debt + amount <= U64_MAX && mine <= s.shares
    ensures var (s', mine') := Increase(s, mine, amount).value;
      && NoDearer(s.debt, s.shares, s'.debt, s'.shares)
      && s'.debt == s.debt + amount && s'.shares >= s.shares
      && mine' <= s'.shares && s'.shares - mine' == s.shares - mine
  {
    IncreaseValue(s, mine, amount);
    CeilSpec(amount * s.shares, s.debt);
    var minted := Ceil(amount * s.shares, s.debt);
    Distribute(s.debt, amount, s.shares);
    Distribute(s.shares, minted, s.debt);
  }

  /** Borrowing a raises what the borrower owes by at least a, and nobody else's debt. */
  lemma BorrowNeverFavoursBorrower(s: Side, mine: u128, other: u128, amount: u64)
    requires Tidy(s) && mine + other <= s.shares && Increase(s, mine, amount).Ok?
    requires MintFits(s, amount) && s.debt + amount <= U64_MAX
    ensures var (s', mine') := Increase(s, mine, amount).value;
      Owed(mine', s') >= Owed(mine, s) + amount && Owed(other, s') <= Owed(other, s)
  {
    var (s', mine') := Increase(s, mine, amount).value;
    if s.shares == 0 {
      IncreaseValue(s, mine, amount);
      CeilAtMost(amount - 1, mine' * amount, mine');
      DistributeMinus(amount, 1, mine');
      CeilAtMost(0, 0 * amount, mine');
    } else {
      BorrowIsNoDearer(s, mine, amount);
      OthersNotCharged(other, s.debt, s.shares, s'.debt, s'.shares);
      ActorBearsChange(mine, s.debt, s.shares, mine', s'.debt, s'.shares);
    }
  }

  /** While there are at least as many shares as debt units, rounding costs the borrower at
      most one unit. */
  lemma BorrowCostsAtMostOneUnit(s: Side, mine: u128, amount: u64)
    requires Tidy(s) && mine <= s.shares && Increase(s, mine, amount).Ok?
    requires MintFits(s, amount) && s.debt + amount <= U64_MAX
    requires s.shares > 0 ==> s.debt + amount <= s.shares
    ensures var (s', mine') := Increase(s, mine, amount).value;
      Owed(mine', s') <= Owed(mine, s) + amount + 1
  {
    IncreaseValue(s, mine, amount);
    var (s', mine') := Increase(s, mine, amount).value;
    if s.shares == 0 {
      CeilAtMost(amount, mine' * amount, mine');
    } else {
      BorrowIsNoDearer(s, mine, amount);
      var c := Ceil(mine * s.debt, s.shares);
      OthersNotCharged(mine, s.debt, s.shares, s'.debt, s'.shares);
      CeilSpec(mine * s'.debt, s'.shares);
      var c' := Ceil(mine * s'.debt, s'.shares);
      var minted := mine' - mine;
      CeilSpec(amount * s.shares, s.debt);
      MintedPart(minted, amount, s.debt, s.shares);
      Distribute(mine, minted, s'.debt);
      MulMono(0, mine, 0, s'.debt);
      CeilAtMost(-1, mine * s'.debt, s'.shares);
      Distribute(c', amount + 1, s'.shares);
      CeilAtMost(c' + amount + 1, mine' * s'.debt, s'.shares);
    }
  }

  /** Freshly minted shares are worth at most amount + 1. */
  lemma MintedPart(minted: int, amount: nat, d: nat, t: nat)
    requires 0 < d && d + amount <= t && (minted - 1) * d < amount * t && 0 <= minted
    ensures minted * (d + amount) <= (amount + 1) * (t + minted)
  {
    DistributeMinus(minted, 1, d);
    Distribute(d, amount, minted);
    Distribute(t, minted, amount + 1);
    Distribute(amount, 1, t);
    Distribute(amount, 1, minted);
  }

  // ---------------------------------------------------------------- repaying

  lemma RepayParts(s: Side, mine: u128, amount: u64)
    requires Decrease(s, mine, amount, Repayment).Ok? && mine <= s.shares && amount <= s.debt
    ensures var (s', mine') := Decrease(s, mine, amount, Repayment).value;
      && s.debt > 0
      && var burned := mine - mine';
      && 0 <= burned <= mine && burned * s.debt <= amount * s.shares
      && (burned < mine ==> amount * s.shares < (burned + 1) * s.debt)
      && s'.shares == s.shares - burned
      && s'.debt == (if s'.shares == 0 then 0 else s.debt - amount)
      && s'.reserve == s.reserve && s'.cash == Min(s.cash + amount, U64_MAX)
      && NoDearer(s.debt, s.shares, s.debt - amount, s'.shares)
  {
    MulMono(0, amount, 0, s.shares);
    FloorSpec(amount * s.shares, s.debt);
    FloorAtLeast(0, amount * s.shares, s.debt);
    var burned := Min(amount * s.shares / s.debt, mine);
    MulMono(burned, amount * s.shares / s.debt, s.debt, s.debt);
    DistributeMinus(s.debt, amount, s.shares);
    DistributeMinus(s.shares, burned, s.debt);
  }

  /** A repayment of at most the total never orphans debt: shares reach zero only when the
      whole debt was repaid. */
  lemma RepaymentNeverOrphans(s: Side, mine: u128, amount: u64)
    requires Decrease(s, mine, amount, Repayment).Ok? && mine <= s.shares && amount <= s.debt
    requires s.shares > 0
    ensures !Orphans(s, mine, amount, Repayment)
    ensures Decrease(s, mine, amount, Repayment).value.0.shares == 0 ==> amount == s.debt
    ensures Decrease(s, mine, amount, Repayment).value.0.debt == s.debt - amount
  {
    RepayParts(s, mine, amount);
    var (s', mine') := Decrease(s, mine, amount, Repayment).value;
    if s'.shares == 0 {
      CancelLe(s.debt, amount, s.shares);
    }
  }

  /** Repaying a lowers what the payer owes by at most a, and raises nobody else's debt. */
  lemma RepaymentNeverFavoursPayer(s: Side, mine: u128, other: u128, amount: u64)
    requires mine + other <= s.shares && s.shares > 0 && amount <= s.debt
    requires Decrease(s, mine, amount, Repayment).Ok?
    ensures var (s', mine') := Decrease(s, mine, amount, Repayment).value;
      Owed(mine', s') >= Owed(mine, s) - amount && Owed(other, s') <= Owed(other, s)
  {
    RepayParts(s, mine, amount);
    RepaymentNeverOrphans(s, mine, amount);
    var (s', mine') := Decrease(s, mine, amount, Repayment).value;
    MulMono(0, mine, 0, s.debt);
    MulMono(0, other, 0, s.debt);
    if s'.shares == 0 {
      MulMono(mine, s.shares, s.debt, s.debt);
      CeilAtMost(s.debt, mine * s.debt, s.shares);
      CeilAtMost(-1, other * s.debt, s.shares);
    } else {
      OthersNotCharged(other, s.debt, s.shares, s'.debt, s'.shares);
      ActorBearsChange(mine, s.debt, s.shares, mine', s'.debt, s'.shares);
    }
  }

  /** Repaying exactly what is owed burns exactly all of the position's shares. */
  lemma FullRepaymentBurnsEverything(s: Side, mine: u128, amount: u64)
    requires 0 < mine <= s.shares && s.debt > 0
    requires DebtOf(mine, s.debt, s.shares) == Ok(amount)
    requires Decrease(s, mine, amount, Repayment).Ok?
    ensures amount <= s.debt
    ensures Decrease(s, mine, amount, Repayment).value.1 == 0
    ensures Decrease(s, mine, amount, Repayment).value.0
         == Side(s.reserve, Min(s.cash + amount, U64_MAX), s.debt - amount, s.shares - mine)
  {
    DebtOfIsCeil(mine, s.debt, s.shares);
    CeilSpec(mine * s.debt, s.shares);
    MulMono(mine, s.shares, s.debt, s.debt);
    CeilAtMost(s.debt, mine * s.debt, s.shares);
    FloorAtLeast(mine, amount * s.shares, s.debt);
    RepayParts(s, mine, amount);
    RepaymentNeverOrphans(s, mine, amount);
  }
}
