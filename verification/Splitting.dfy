/** Debt crowding: on the dynamic path no way of spreading collateral over accounts borrows
    more than one account holding all of it. */
module Splitting {
  import opened Words
  import opened Nonlinear
  import opened Curve
  import opened VirtualReserves
  import opened BorrowLimit

  /** The pool as the borrow limit sees it: reserves and prices stay fixed while debt grows. */
  datatype View = View(rc: u64, rd: u64, ema: u64, directional: u64) {
    function Limit(collateral: u64, totalDebt: u64): Result<(u64, u16, u16)> {
      PessimisticMaxDebt(collateral, ema, directional, rc, rd, totalDebt, None)
    }

    /** The limit as a rule; a failing call lends nothing. */
    function LimitOrZero(collateral: u64, totalDebt: u64): u64 {
      match Limit(collateral, totalDebt)
      case Ok(l) => l.0
      case Err(_) => 0
    }

    function Rule(): LimitRule {
      (collateral, totalDebt) => LimitOrZero(collateral, totalDebt)
    }

    function Virtual(): Result<(u64, u64)> {
      Construct(rc, rd, ema, directional)
    }

    /** Total debt one more account with this much collateral may bring the pool to. */
    function Capacity(collateral: u64, totalDebt: u64): Result<u64> {
      var utilized :- UtilizedCollateral(totalDebt, rc, rd, directional, ema);
      MaxAllowedTotalDebt(utilized, collateral, rc, rd, directional, ema)
    }
  }

  datatype Account = Account(collateral: u64, borrow: u64)

  function TotalCollateral(accounts: seq<Account>): nat {
    if accounts == [] then 0 else accounts[0].collateral + TotalCollateral(accounts[1..])
  }

  function TotalBorrow(accounts: seq<Account>): nat {
    if accounts == [] then 0 else accounts[0].borrow + TotalBorrow(accounts[1..])
  }

  /** A rule giving the borrow limit for a collateral at an outstanding total debt. */
  type LimitRule = (u64, u64) -> u64

  /** Each account in turn borrows at most what the rule allows at the debt then outstanding. */
  predicate Admissible(limit: LimitRule, debt: u64, accounts: seq<Account>)
    decreases |accounts|
  {
    accounts == [] ||
    (&& debt + accounts[0].borrow <= U64_MAX
     && accounts[0].borrow <= limit(accounts[0].collateral, debt)
     && Admissible(limit, debt + accounts[0].borrow, accounts[1..]))
  }

  /** Posting c covers the growth of the debt by d on the curve. */
  predicate Covers(x: nat, y: nat, debt: nat, c: nat, d: nat) {
    debt + d < y && InCeil(x, y, debt + d) <= InCeil(x, y, debt) + c
  }

  /** Under a sound rule every permitted borrow is covered by its own collateral. */
  ghost predicate Sound(limit: LimitRule, x: nat, y: nat) {
    forall c: u64, debt: u64, d: u64 ::
      debt < y && d <= limit(c, debt) && debt + d <= U64_MAX ==> Covers(x, y, debt, c, d)
  }

  /** For any sequence of accounts under a sound rule, the collateral it takes to cover their
      total debt is at most what was utilised before plus all they posted. */
  lemma {:induction false} SplitUtilization(limit: LimitRule, x: nat, y: nat, debt: u64, accounts: seq<Account>)
    requires Sound(limit, x, y) && debt < y
    requires Admissible(limit, debt, accounts)
    ensures Covers(x, y, debt, TotalCollateral(accounts), TotalBorrow(accounts))
    decreases |accounts|
  {
    if accounts != [] {
      var first := accounts[0];
      assert Covers(x, y, debt, first.collateral, first.borrow);
      SplitUtilization(limit, x, y, debt + first.borrow, accounts[1..]);
    }
  }

  /** user_max_debt * BPS / value, cut to a factor, buffered and applied to the value again,
      stays strictly below user_max_debt. */
  lemma BufferedShare(room: u64, value: u64)
    requires value > 0
    ensures var cf := Min(DynamicCf(room, value), MAX_COLLATERAL_FACTOR_BPS);
      ApplyCf(value, MaxCf(cf)) <= room && (room > 0 ==> ApplyCf(value, MaxCf(cf)) < room)
  {
    var cf := Min(DynamicCf(room, value), MAX_COLLATERAL_FACTOR_BPS);
    FloorSpec(room * BPS, value);
    MaxCfBelow(cf);
    MulMono(cf, room * BPS / value, value, value);
    if cf > 0 {
      MulMono(MaxCf(cf) + 1, cf, value, value);
      Distribute(MaxCf(cf), 1, value);
    }
    FloorSpec(value * MaxCf(cf), BPS);
  }

  /** The limit stays within the room the curve leaves, and strictly so when there is room. */
  lemma LimitWithinCapacity(v: View, collateral: u64, debt: u64)
    requires v.Limit(collateral, debt).Ok? && v.Limit(collateral, debt).value.0 > 0
    ensures v.Virtual().Ok? && collateral > 0
    ensures v.Capacity(collateral, debt).Ok?
    ensures debt + v.Limit(collateral, debt).value.0 < v.Capacity(collateral, debt).value
  {
    LimitParts(collateral, v.ema, v.directional, v.rc, v.rd, debt, None);
    var value := ImpactValue(v.rc, v.rd, v.ema, v.directional, collateral).value;
    var allowed := v.Capacity(collateral, debt).value;
    if value > 0 {
      BufferedShare(SaturatingSub64(allowed, debt), value);
    }
  }

  /** Capacity in terms of the curve: the proceeds of the utilised collateral plus the new. */
  lemma CapacityValue(v: View, collateral: u64, debt: u64)
    requires v.Virtual().Ok? && v.Capacity(collateral, debt).Ok? && collateral > 0
    ensures var (x, y) := v.Virtual().value;
      && debt < y
      && UtilizedCollateral(debt, v.rc, v.rd, v.directional, v.ema) == Ok(InCeil(x, y, debt))
      && v.Capacity(collateral, debt) == Ok(OutFloor(x, y, InCeil(x, y, debt) + collateral))
  {
    var (x, y) := v.Virtual().value;
    AmountInValue(x, y, debt);
    var utilized := AmountIn(x, y, debt).value;
    AmountOutValue(x, y, utilized + collateral);
  }

  /** One permitted borrow: utilised collateral grows by at most what was posted. */
  lemma OneAccount(v: View, collateral: u64, debt: u64, borrow: u64)
    requires v.Virtual().Ok? && debt < v.Virtual().value.1
    requires borrow <= v.LimitOrZero(collateral, debt)
    ensures Covers(v.Virtual().value.0, v.Virtual().value.1, debt, collateral, borrow)
  {
    var (x, y) := v.Virtual().value;
    if borrow > 0 {
      LimitWithinCapacity(v, collateral, debt);
      CapacityValue(v, collateral, debt);
      var total := InCeil(x, y, debt) + collateral;
      OutFloorBelowReserve(x, y, total);
      Adjunction(x, y, total, debt + borrow);
    }
  }

  lemma DynamicLimitIsSound(v: View)
    requires v.Virtual().Ok?
    ensures Sound(v.Rule(), v.Virtual().value.0, v.Virtual().value.1)
  {
    var (x, y) := v.Virtual().value;
    forall c: u64, debt: u64, d: u64 | debt < y && d <= v.Rule()(c, debt) && debt + d <= U64_MAX
      ensures Covers(x, y, debt, c, d)
    {
      OneAccount(v, c, debt, d);
    }
  }

  /** The dynamic limit: for any accounts borrowing in turn, total debt never exceeds the
      proceeds, on the curve, of the utilised collateral plus everything posted. */
  lemma SplitDebt(v: View, debt: u64, accounts: seq<Account>)
    requires v.Virtual().Ok? && debt < v.Virtual().value.1
    requires Admissible(v.Rule(), debt, accounts)
    ensures var (x, y) := v.Virtual().value;
      var covered := InCeil(x, y, debt) + TotalCollateral(accounts);
      && Covers(x, y, debt, TotalCollateral(accounts), TotalBorrow(accounts))
      && (x + covered > 0 ==> debt + TotalBorrow(accounts) <= OutFloor(x, y, covered))
  {
    var (x, y) := v.Virtual().value;
    DynamicLimitIsSound(v);
    SplitUtilization(v.Rule(), x, y, debt, accounts);
    ProceedsCover(x, y, debt, TotalCollateral(accounts), TotalBorrow(accounts));
  }

  lemma ProceedsCover(x: nat, y: nat, debt: nat, c: nat, d: nat)
    requires debt < y && Covers(x, y, debt, c, d)
    ensures x + InCeil(x, y, debt) + c > 0 ==> debt + d <= OutFloor(x, y, InCeil(x, y, debt) + c)
  {
    if x + InCeil(x, y, debt) + c > 0 {
      Adjunction(x, y, InCeil(x, y, debt) + c, debt + d);
    }
  }

  /** Splitting never beats one account: whatever a sequence of accounts borrows, a single
      account with their joint collateral has at least that capacity. */
  lemma SplittingNeverBeatsOneAccount(v: View, debt: u64, accounts: seq<Account>)
    requires v.Virtual().Ok? && Admissible(v.Rule(), debt, accounts)
    requires 0 < TotalCollateral(accounts) <= U64_MAX
    requires v.Capacity(TotalCollateral(accounts), debt).Ok?
    ensures debt + TotalBorrow(accounts) <= v.Capacity(TotalCollateral(accounts), debt).value
  {
    CapacityValue(v, TotalCollateral(accounts), debt);
    SplitDebt(v, debt, accounts);
  }
}
