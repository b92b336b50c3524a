/** The borrow handler pinned from outside: exactly when it succeeds and with which pair, what it
    reads its limit from, and what a sequence of borrows does to the debt on the curve. */
module BorrowRuns {
  import opened Words
  import opened Nonlinear
  import opened Curve
  import opened VirtualReserves
  import opened BorrowLimit
  import opened Splitting
  import opened LimitValue
  import opened Ledger
  import opened PairState
  import opened Borrowing

  /** With token0 as collateral token1 is lent, and the other way round. */
  function Posted(p: State, zero: bool): Side {
    if zero then p.side0 else p.side1
  }

  function Lent(p: State, zero: bool): Side {
    if zero then p.side1 else p.side0
  }

  function WithLent(p: State, zero: bool, s: Side): State {
    if zero then p.(side1 := s) else p.(side0 := s)
  }

  /** Both prices of the collateral as the handler reads them at the slot. */
  predicate Priced(p: State, zero: bool, slot: u64, ema: u64, directional: u64) {
    p.EmaPrice(zero, slot) == Ok(ema) && p.DirectionalPrice(zero, slot) == Ok(directional)
  }

  /** The limit is read from the reserves of both tokens, the two prices of the collateral and
      the outstanding debt of the token lent; without either price there is none. */
  lemma LimitReads(p: State, zero: bool, collateral: u64, slot: u64)
    ensures p.EmaPrice(zero, slot).Err? || p.DirectionalPrice(zero, slot).Err? ==>
      p.MaxDebtAndCf(zero, collateral, slot).Err?
    ensures forall ema: u64, directional: u64 | Priced(p, zero, slot, ema, directional) ::
      p.MaxDebtAndCf(zero, collateral, slot)
        == PessimisticMaxDebt(collateral, ema, directional, Posted(p, zero).reserve, Lent(p, zero).reserve,
                              Lent(p, zero).debt, p.fixedCf)
  {
  }

  // ---------------------------------------------------------------- success and successor

  /** What is asked for: the room under the limit for the largest word. */
  function Asked(requested: u64, limit: int, owed: int): int {
    if requested == U64_MAX then limit - owed else requested
  }

  /** The handler lends if and only if something is asked for, it stays within the limit and
      within cash, and the ledger can mint shares for it. */
  predicate Lends(lent: Side, owed: int, limit: int, amount: int) {
    && 0 < amount && owed + amount <= limit && amount <= lent.cash
    && (lent.shares > 0 ==> lent.debt > 0 && amount * lent.shares + lent.debt - 1 <= U128_MAX)
  }

  /** Shares minted: a million a unit on an empty side, otherwise in proportion, rounded up. */
  function Minted(lent: Side, amount: int): int
    requires lent.shares > 0 ==> lent.debt > 0
  {
    if lent.shares == 0 then amount * 1_000_000 else Ceil(amount * lent.shares, lent.debt)
  }

  /** The lent side after the loan, and the position's shares. */
  predicate Loaned(lent: Side, lent': Side, mine: int, mine': int, amount: int)
    requires lent.shares > 0 ==> lent.debt > 0
  {
    && lent'.reserve == lent.reserve
    && lent'.cash == lent.cash - amount
    && lent'.debt == Min(lent.debt + amount, U64_MAX)
    && lent'.shares == Min(lent.shares + Minted(lent, amount), U128_MAX)
    && mine' == (if lent.shares == 0 then Minted(lent, amount) else Min(mine + Minted(lent, amount), U128_MAX))
  }

  lemma BorrowIff(
    p: State, zero: bool, mine: u128, collateral: u64, requested: u64, slot: u64,
    owed: u64, limit: u64, maxCf: u16, cf: u16)
    requires DebtOf(mine, Lent(p, zero).debt, Lent(p, zero).shares) == Ok(owed)
    requires p.MaxDebtAndCf(zero, collateral, slot) == Ok((limit, maxCf, cf))
    ensures var amount := Asked(requested, limit, owed);
      var handled := HandleBorrow(p, zero, mine, collateral, requested, slot);
      && (handled.Ok? <==> Lends(Lent(p, zero), owed, limit, amount))
      && (handled.Ok? ==>
            && handled.value.amount == amount
            && (handled.value.limit, handled.value.maxCf, handled.value.cf) == (limit, maxCf, cf)
            && Loaned(Lent(p, zero), Lent(handled.value.pair, zero), mine, handled.value.mine, amount)
            && handled.value.pair == WithLent(p, zero, Lent(handled.value.pair, zero)))
  {
    var amount := Asked(requested, limit, owed);
    if 0 <= amount <= U64_MAX {
      IncreaseValue(Lent(p, zero), mine, amount);
    }
    HandledIs(p, zero, mine, collateral, requested, slot, owed, (limit, maxCf, cf));
  }

  /** The handler in terms of the ledger's borrow. */
  lemma HandledIs(
    p: State, zero: bool, mine: u128, collateral: u64, requested: u64, slot: u64, owed: u64, limit: (u64, u16, u16))
    requires DebtOf(mine, Lent(p, zero).debt, Lent(p, zero).shares) == Ok(owed)
    requires p.MaxDebtAndCf(zero, collateral, slot) == Ok(limit)
    ensures var amount := Asked(requested, limit.0, owed);
      var handled := HandleBorrow(p, zero, mine, collateral, requested, slot);
      && (handled.Ok? <==>
            && 0 < amount && owed + amount <= limit.0 && amount <= Lent(p, zero).cash
            && Increase(Lent(p, zero), mine, amount).Ok?)
      && (handled.Ok? ==>
            && var (side, held) := Increase(Lent(p, zero), mine, amount).value;
            && handled.value == Borrowed(WithLent(p, zero, side), held, amount, limit.0, limit.1, limit.2))
  {
  }

  /** Without a reading of the position's debt, or without a limit, nothing is lent. */
  lemma NoBorrowUnread(p: State, zero: bool, mine: u128, collateral: u64, requested: u64, slot: u64)
    requires DebtOf(mine, Lent(p, zero).debt, Lent(p, zero).shares).Err?
          || p.MaxDebtAndCf(zero, collateral, slot).Err?
    ensures HandleBorrow(p, zero, mine, collateral, requested, slot).Err?
  {
  }

  // ---------------------------------------------------------------- one borrow on the curve

  /** A successful borrow was quoted at the virtual reserves of its own orientation. */
  lemma BorrowParts(
    p: State, zero: bool, mine: u128, collateral: u64, requested: u64, slot: u64, ema: u64, directional: u64, b: Borrowed)
    requires HandleBorrow(p, zero, mine, collateral, requested, slot) == Ok(b)
    requires Priced(p, zero, slot, ema, directional)
    ensures b.amount > 0 && b.limit >= b.amount
    ensures PessimisticMaxDebt(collateral, ema, directional, Posted(p, zero).reserve, Lent(p, zero).reserve,
                               Lent(p, zero).debt, p.fixedCf) == Ok((b.limit, b.maxCf, b.cf))
    ensures Lent(b.pair, zero).debt == Min(Lent(p, zero).debt + b.amount, U64_MAX)
    ensures b.pair == WithLent(p, zero, Lent(b.pair, zero)) && Lent(b.pair, zero).reserve == Lent(p, zero).reserve
    ensures Priced(b.pair, zero, slot, ema, directional)
  {
    IncreaseValue(Lent(p, zero), mine, b.amount);
  }

  /** On the dynamic path the new total debt stays strictly below what the curve pays for the
      collateral utilised by the old debt plus the collateral posted. */
  lemma BorrowStaysUnderCurve(
    p: State, zero: bool, mine: u128, collateral: u64, requested: u64, slot: u64, ema: u64, directional: u64, b: Borrowed)
    requires p.fixedCf == None && HandleBorrow(p, zero, mine, collateral, requested, slot) == Ok(b)
    requires Priced(p, zero, slot, ema, directional)
    ensures collateral > 0 && Construct(Posted(p, zero).reserve, Lent(p, zero).reserve, ema, directional).Ok?
    ensures var (x, y) := Construct(Posted(p, zero).reserve, Lent(p, zero).reserve, ema, directional).value;
      && Lent(p, zero).debt < y
      && Lent(p, zero).debt + b.amount == Lent(b.pair, zero).debt
      && Lent(b.pair, zero).debt < OutFloor(x, y, InCeil(x, y, Lent(p, zero).debt) + collateral)
  {
    BorrowParts(p, zero, mine, collateral, requested, slot, ema, directional, b);
    var v := View(Posted(p, zero).reserve, Lent(p, zero).reserve, ema, directional);
    RoomOfView(v, collateral, Lent(p, zero).debt, b.limit, b.maxCf, b.cf);
  }

  lemma RoomOfView(v: View, collateral: u64, debt: u64, limit: u64, maxCf: u16, cf: u16)
    requires PessimisticMaxDebt(collateral, v.ema, v.directional, v.rc, v.rd, debt, None) == Ok((limit, maxCf, cf))
    requires limit > 0
    ensures collateral > 0 && Construct(v.rc, v.rd, v.ema, v.directional).Ok?
    ensures var (x, y) := Construct(v.rc, v.rd, v.ema, v.directional).value;
      && debt < y
      && debt + limit < OutFloor(x, y, InCeil(x, y, debt) + collateral) <= U64_MAX
  {
    LimitWithinCapacity(v, collateral, debt);
    CapacityValue(v, collateral, debt);
  }

  /** On either path the borrow stays within a limit that the virtual reserves of its own
      orientation, the debt of the token lent and the two prices determine. */
  lemma BorrowWithinBracket(
    p: State, zero: bool, mine: u128, collateral: u64, requested: u64, slot: u64, ema: u64, directional: u64,
    b: Borrowed, x: u64, y: u64)
    requires HandleBorrow(p, zero, mine, collateral, requested, slot) == Ok(b)
    requires Priced(p, zero, slot, ema, directional)
    requires Construct(Posted(p, zero).reserve, Lent(p, zero).reserve, ema, directional) == Ok((x, y))
    ensures collateral > 0 && LimitOf(OutFloor(x, y, collateral), b.limit, b.maxCf, b.cf)
    ensures p.fixedCf.Some? ==> Shrunk(b.cf, p.fixedCf.value, ema, directional)
    ensures p.fixedCf.None? ==>
      && Lent(p, zero).debt < y
      && Crowded(b.cf, OutFloor(x, y, collateral), RoomFor(x, y, collateral, Lent(p, zero).debt))
  {
    BorrowParts(p, zero, mine, collateral, requested, slot, ema, directional, b);
    LimitBracket(collateral, ema, directional, Posted(p, zero).reserve, Lent(p, zero).reserve, Lent(p, zero).debt,
                 p.fixedCf, b.limit, b.maxCf, b.cf, x, y);
  }

  lemma LimitBracket(
    collateral: u64, ema: u64, directional: u64, rc: u64, rd: u64, debt: u64, fixedCf: Option<u16>,
    limit: u64, maxCf: u16, cf: u16, x: u64, y: u64)
    requires PessimisticMaxDebt(collateral, ema, directional, rc, rd, debt, fixedCf) == Ok((limit, maxCf, cf))
    requires limit > 0 && Construct(rc, rd, ema, directional) == Ok((x, y))
    ensures collateral > 0 && LimitOf(OutFloor(x, y, collateral), limit, maxCf, cf)
    ensures fixedCf.Some? ==> Shrunk(cf, fixedCf.value, ema, directional)
    ensures fixedCf.None? ==> debt < y && Crowded(cf, OutFloor(x, y, collateral), RoomFor(x, y, collateral, debt))
  {
    if collateral == 0 || ema == 0 || directional == 0 {
      NothingToBorrowOn(collateral, ema, directional, rc, rd, debt, fixedCf);
    } else if fixedCf.Some? {
      FixedLimitBracket(collateral, ema, directional, rc, rd, debt, fixedCf.value, x, y);
    } else {
      LimitDefinedIff(collateral, ema, directional, rc, rd, debt, fixedCf);
      DynamicLimitBracket(collateral, ema, directional, rc, rd, debt, x, y);
    }
  }

  // ---------------------------------------------------------------- many borrows

  /** One call of the handler: whatever the caller's position holds, new or not. */
  datatype Request = Request(mine: u128, collateral: u64, requested: u64)

  function AfterRequest(p: State, zero: bool, r: Request, slot: u64): State {
    match HandleBorrow(p, zero, r.mine, r.collateral, r.requested, slot)
    case Ok(b) => b.pair
    case Err(_) => p
  }

  /** Requests in turn, each at the state the previous one left. */
  function InTurn(after: (State, Request) -> State, p: State, requests: seq<Request>): State
    decreases |requests|
  {
    if requests == [] then p else InTurn(after, after(p, requests[0]), requests[1..])
  }

  /** Calls of the handler within one slot; a failing one changes nothing. */
  function BorrowAll(p: State, zero: bool, requests: seq<Request>, slot: u64): State {
    InTurn((q, r) => AfterRequest(q, zero, r, slot), p, requests)
  }

  function AllPosted(requests: seq<Request>): nat {
    if requests == [] then 0 else requests[0].collateral + AllPosted(requests[1..])
  }

  /** Nothing was lent, or the curve quotes no more for the new debt than for the old one plus the
      collateral c, and then pays the new debt for that much. */
  predicate StaysCovered(x: nat, y: nat, debt: nat, debt': nat, c: nat) {
    || debt' == debt
    || (&& debt < debt' < y
        && InCeil(x, y, debt') <= InCeil(x, y, debt) + c
        && (x + InCeil(x, y, debt) + c > 0 ==> debt' <= OutFloor(x, y, InCeil(x, y, debt) + c)))
  }

  /** Only the token lent is touched, and not its reserve. */
  predicate SameButLent(p: State, p': State, zero: bool) {
    p' == WithLent(p, zero, Lent(p', zero)) && Lent(p', zero).reserve == Lent(p, zero).reserve
  }

  lemma SameButJoins(p: State, q: State, r: State, zero: bool)
    requires SameButLent(p, q, zero) && SameButLent(q, r, zero)
    ensures SameButLent(p, r, zero) && Posted(r, zero) == Posted(p, zero)
  {
  }

  /** The pair at given prices of the collateral and virtual reserves, on the dynamic path. */
  predicate At(p: State, zero: bool, slot: u64, ema: u64, directional: u64, x: u64, y: u64) {
    && p.fixedCf == None && Priced(p, zero, slot, ema, directional)
    && Construct(Posted(p, zero).reserve, Lent(p, zero).reserve, ema, directional) == Ok((x, y))
  }

  lemma RequestStaysCovered(p: State, zero: bool, r: Request, slot: u64, ema: u64, directional: u64, x: u64, y: u64)
    requires At(p, zero, slot, ema, directional, x, y)
    ensures var p' := AfterRequest(p, zero, r, slot);
      && StaysCovered(x, y, Lent(p, zero).debt, Lent(p', zero).debt, r.collateral)
      && SameButLent(p, p', zero) && At(p', zero, slot, ema, directional, x, y)
  {
    var handled := HandleBorrow(p, zero, r.mine, r.collateral, r.requested, slot);
    if handled.Ok? {
      BorrowParts(p, zero, r.mine, r.collateral, r.requested, slot, ema, directional, handled.value);
      BorrowStaysUnderCurve(p, zero, r.mine, r.collateral, r.requested, slot, ema, directional, handled.value);
      CoveredByCollateral(x, y, Lent(p, zero).debt, Lent(handled.value.pair, zero).debt, r.collateral);
    }
  }

  lemma CoveredByCollateral(x: nat, y: nat, debt: nat, debt': nat, c: nat)
    requires debt < y && debt < debt' && c > 0 && debt' < OutFloor(x, y, InCeil(x, y, debt) + c)
    ensures StaysCovered(x, y, debt, debt', c)
  {
    OutFloorBelowReserve(x, y, InCeil(x, y, debt) + c);
    Adjunction(x, y, InCeil(x, y, debt) + c, debt');
  }

  lemma CoverJoins(x: nat, y: nat, d0: nat, d1: nat, d2: nat, c: nat, e: nat)
    requires StaysCovered(x, y, d0, d1, c) && StaysCovered(x, y, d1, d2, e)
    ensures StaysCovered(x, y, d0, d2, c + e)
  {
    if d2 != d0 {
      assert d0 < d2 < y;
      assert InCeil(x, y, d2) <= InCeil(x, y, d0) + (c + e);
      if x + InCeil(x, y, d0) + (c + e) > 0 {
        Adjunction(x, y, InCeil(x, y, d0) + (c + e), d2);
      }
    }
  }

  /** What one call does to the debt and to the rest of the pair. */
  predicate CoveredStep(p: State, p': State, zero: bool, x: nat, y: nat, c: nat) {
    StaysCovered(x, y, Lent(p, zero).debt, Lent(p', zero).debt, c) && SameButLent(p, p', zero)
  }

  lemma StepJoins(p: State, q: State, r: State, zero: bool, x: nat, y: nat, c: nat, e: nat)
    requires CoveredStep(p, q, zero, x, y, c) && CoveredStep(q, r, zero, x, y, e)
    ensures CoveredStep(p, r, zero, x, y, c + e)
  {
    SameButJoins(p, q, r, zero);
    CoverJoins(x, y, Lent(p, zero).debt, Lent(q, zero).debt, Lent(r, zero).debt, c, e);
  }

  lemma {:induction false} InTurnStaysCovered(
    after: (State, Request) -> State, priced: State -> bool, p: State, requests: seq<Request>, zero: bool, x: nat, y: nat)
    requires priced(p)
    requires forall q: State, r: Request :: priced(q) ==>
      priced(after(q, r)) && CoveredStep(q, after(q, r), zero, x, y, r.collateral)
    ensures CoveredStep(p, InTurn(after, p, requests), zero, x, y, AllPosted(requests))
    decreases |requests|
  {
    if requests == [] {
      assert SameButLent(p, p, zero);
    } else {
      var next, end := after(p, requests[0]), InTurn(after, p, requests);
      InTurnStaysCovered(after, priced, next, requests[1..], zero, x, y);
      StepJoins(p, next, end, zero, x, y, requests[0].collateral, AllPosted(requests[1..]));
    }
  }

  /** Splitting end to end: whatever a sequence of calls of the borrow handler asks for, the debt
      it leaves is covered, on the curve at the virtual reserves, by what was utilised before plus
      all the collateral behind the calls, each call counted once; the reserves stay. */
  lemma BorrowAllStaysCovered(
    p: State, zero: bool, requests: seq<Request>, slot: u64, ema: u64, directional: u64, x: u64, y: u64)
    requires At(p, zero, slot, ema, directional, x, y)
    ensures var p' := BorrowAll(p, zero, requests, slot);
      && StaysCovered(x, y, Lent(p, zero).debt, Lent(p', zero).debt, AllPosted(requests))
      && SameButLent(p, p', zero)
  {
    var after := (q: State, r: Request) => AfterRequest(q, zero, r, slot);
    var priced := (q: State) => At(q, zero, slot, ema, directional, x, y);
    forall q: State, r: Request | priced(q)
      ensures priced(after(q, r)) && CoveredStep(q, after(q, r), zero, x, y, r.collateral)
    {
      RequestStaysCovered(q, zero, r, slot, ema, directional, x, y);
    }
    InTurnStaysCovered(after, priced, p, requests, zero, x, y);
  }
}
