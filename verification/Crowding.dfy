/** The fixed-factor path: its limit ignores outstanding debt, so spreading collateral over
    accounts can beat one account. Exactly how much collateral keeps that from happening. */
module Crowding {
  import opened Words
  import opened Nonlinear
  import opened Kernels
  import opened Curve
  import opened VirtualReserves
  import opened BorrowLimit
  import opened Splitting

  /** The limit of the fixed path as a rule; a failing call lends nothing. */
  function FixedLimit(v: View, fixedCf: u16, collateral: u64, totalDebt: u64): u64 {
    match PessimisticMaxDebt(collateral, v.ema, v.directional, v.rc, v.rd, totalDebt, Some(fixedCf))
    case Ok(l) => l.0
    case Err(_) => 0
  }

  function FixedRule(v: View, fixedCf: u16): LimitRule {
    (collateral, totalDebt) => FixedLimit(v, fixedCf, collateral, totalDebt)
  }

  /** The factor a borrower may use, after shrinking and buffer. */
  function UsableCf(v: View, fixedCf: u16): u16
    requires v.ema > 0
  {
    MaxCf(FixedLiquidationCf(fixedCf, v.ema, v.directional))
  }

  /** On the fixed path the whole answer is the same at every outstanding debt. */
  lemma FixedLimitIgnoresDebt(
    collateral: u64, ema: u64, directional: u64, rc: u64, rd: u64, debt: u64, debt': u64, fixedCf: u16)
    ensures PessimisticMaxDebt(collateral, ema, directional, rc, rd, debt, Some(fixedCf))
         == PessimisticMaxDebt(collateral, ema, directional, rc, rd, debt', Some(fixedCf))
  {
  }

  // ---------------------------------------------------------------- the guard

  /** What m basis points of the proceeds of c come to. */
  function PartLimit(x: nat, y: nat, c: nat, m: nat): nat
    requires x > 0
  {
    MulMono(0, OutFloor(x, y, c), 0, m);
    FloorAtLeast(0, OutFloor(x, y, c) * m, BPS);
    OutFloor(x, y, c) * m / BPS
  }

  /** A limit is at most the marginal price at no impact, m * y / x, times the collateral. */
  lemma PartBelowMarginal(x: nat, y: nat, c: nat, m: nat)
    requires x > 0
    ensures PartLimit(x, y, c, m) * (BPS * x) <= c * (y * m)
  {
    var o := OutFloor(x, y, c);
    FloorSpec(o * m, BPS);
    MulMono(PartLimit(x, y, c, m) * BPS, o * m, x, x);
    Associate(PartLimit(x, y, c, m), BPS, x);
    FloorSpec(c * y, x + c);
    MulMono(o, o, x, x + c);
    MulMono(o * x, c * y, m, m);
    Associate(o, m, x);
    Associate(c, y, m);
  }

  /** Debt within the marginal price of the collateral fits under the curve when
      m * (x + collateral) <= 10000 * x. */
  lemma MarginalFitsCurve(x: nat, y: nat, c: nat, m: nat, debt: nat)
    requires x > 0 && debt * (BPS * x) <= c * (y * m)
    requires m * (x + c) <= BPS * x
    ensures debt <= OutFloor(x, y, c)
  {
    var s := x + c;
    MulMono(debt * (BPS * x), c * (y * m), s, s);
    MulMono(0, c, 0, y);
    MulMono(c * y, c * y, m * s, BPS * x);
    Associate(c, y, m);
    Associate(c * y, m, s);
    Associate(debt, BPS * x, s);
    Associate(c * y, BPS, x);
    CancelLe(debt * s, c * y, BPS * x);
    FloorAtLeast(debt, c * y, s);
  }

  /** The program's limit is exactly that part of the collateral's value, cut to 64 bits. */
  lemma FixedLimitIsPart(v: View, fixedCf: u16, collateral: u64, debt: u64, x: u64, y: u64)
    requires v.Virtual() == Ok((x, y)) && x > 0
    requires v.ema > 0 && v.directional > 0 && collateral > 0
    ensures FixedLimit(v, fixedCf, collateral, debt) == Min(PartLimit(x, y, collateral, UsableCf(v, fixedCf)), U64_MAX)
  {
    AmountOutValue(x, y, collateral);
  }

  lemma FixedLimitAtMostPart(v: View, fixedCf: u16, collateral: u64, debt: u64)
    requires v.Virtual().Ok? && v.Virtual().value.0 > 0 && v.ema > 0
    ensures var (x, y) := v.Virtual().value;
      FixedLimit(v, fixedCf, collateral, debt) <= PartLimit(x, y, collateral, UsableCf(v, fixedCf))
  {
    if v.directional > 0 && collateral > 0 {
      var (x, y) := v.Virtual().value;
      FixedLimitIsPart(v, fixedCf, collateral, debt, x, y);
    }
  }

  lemma {:induction false} FixedBorrowIsMarginal(v: View, fixedCf: u16, debt: u64, accounts: seq<Account>)
    requires v.Virtual().Ok? && v.Virtual().value.0 > 0 && v.ema > 0
    requires Admissible(FixedRule(v, fixedCf), debt, accounts)
    ensures var (x, y) := v.Virtual().value;
      TotalBorrow(accounts) * (BPS * x) <= TotalCollateral(accounts) * (y * UsableCf(v, fixedCf))
    decreases |accounts|
  {
    if accounts != [] {
      var (x, y) := v.Virtual().value;
      var first, rest, m := accounts[0], accounts[1..], UsableCf(v, fixedCf);
      FixedBorrowIsMarginal(v, fixedCf, debt + first.borrow, rest);
      FixedLimitAtMostPart(v, fixedCf, first.collateral, debt);
      PartBelowMarginal(x, y, first.collateral, m);
      MulMono(first.borrow, PartLimit(x, y, first.collateral, m), BPS * x, BPS * x);
      Distribute(first.borrow, TotalBorrow(rest), BPS * x);
      Distribute(first.collateral, TotalCollateral(rest), y * m);
    }
  }

  /** On the fixed path, while m * (X + total collateral) <= 10000 * X, no way of splitting the
      collateral borrows more than one account holding all of it could draw from the curve. */
  lemma FixedSplitWithinCapacity(v: View, fixedCf: u16, debt: u64, accounts: seq<Account>)
    requires v.Virtual().Ok? && v.Virtual().value.0 > 0 && v.ema > 0
    requires Admissible(FixedRule(v, fixedCf), debt, accounts)
    requires var x := v.Virtual().value.0;
      UsableCf(v, fixedCf) * (x + TotalCollateral(accounts)) <= BPS * x
    ensures var (x, y) := v.Virtual().value;
      TotalBorrow(accounts) <= OutFloor(x, y, TotalCollateral(accounts))
  {
    var (x, y) := v.Virtual().value;
    FixedBorrowIsMarginal(v, fixedCf, debt, accounts);
    MarginalFitsCurve(x, y, TotalCollateral(accounts), UsableCf(v, fixedCf), TotalBorrow(accounts));
  }

  /** Whatever admissible factor: collateral up to a nineteenth of the virtual reserve, 5.26 %,
      is always within the guard. */
  lemma NineteenthIsSafe(v: View, fixedCf: u16, debt: u64, accounts: seq<Account>)
    requires v.Virtual().Ok? && v.Virtual().value.0 > 0 && v.ema > 0 && ValidFixedCf(Some(fixedCf))
    requires Admissible(FixedRule(v, fixedCf), debt, accounts)
    requires 19 * TotalCollateral(accounts) <= v.Virtual().value.0
    ensures var (x, y) := v.Virtual().value;
      TotalBorrow(accounts) <= OutFloor(x, y, TotalCollateral(accounts))
  {
    var x, m := v.Virtual().value.0, UsableCf(v, fixedCf);
    MulMono(m, 9_500, x + TotalCollateral(accounts), x + TotalCollateral(accounts));
    FixedSplitWithinCapacity(v, fixedCf, debt, accounts);
  }

  // ---------------------------------------------------------------- the guard is sharp

  /** The guard is missed by more than the impact and the rounding of n accounts of c. */
  predicate FineSplit(x: nat, y: nat, m: nat, n: nat, c: nat) {
    ((n * c) * y) * (m * (x + n * c) - BPS * (x + c)) >= (n * (m + BPS)) * ((x + c) * (x + n * c))
  }

  /** n accounts of c each beat one account of n * c as soon as the guard is missed by more than
      their own impact and rounding. */
  lemma FineSplitBeatsOne(x: nat, y: nat, total: nat, m: nat, n: nat, c: nat)
    requires x > 0 && n > 0 && total == n * c
    requires FineSplit(x, y, m, n, c)
    ensures n * PartLimit(x, y, c, m) > OutFloor(x, y, total)
  {
    var s, t := x + c, x + total;
    var debt := n * PartLimit(x, y, c, m);
    PartsAbove(x, y, c, m, n);
    // debt * BPS * s > total * y * m - n * (m + BPS) * s
    TimesPositive((total * y) * m - (n * (m + BPS)) * s, debt * (BPS * s), t);
    DistributeMinus((total * y) * m, (n * (m + BPS)) * s, t);
    Associate(total * y, m, t);
    Associate(n * (m + BPS), s, t);
    DistributeMinus(m * t, BPS * s, total * y);
    Associate(debt, BPS * s, t);
    CancelLt(total * y, debt * t, BPS * s);
    MulMono(0, total, 0, y);
    FloorAtLeast(debt, total * y, t);
  }

  lemma PartsAbove(x: nat, y: nat, c: nat, m: nat, n: nat)
    requires x > 0 && n > 0
    ensures (n * PartLimit(x, y, c, m)) * (BPS * (x + c)) > ((n * c) * y) * m - (n * (m + BPS)) * (x + c)
  {
    PartAbove(x, y, c, m);
    TimesParts(PartLimit(x, y, c, m), BPS * (x + c), (m + BPS) * (x + c), c, y * m, n);
    Associate(n, m + BPS, x + c);
    Associate(n * c, y, m);
  }

  lemma TimesParts(l: nat, bs: nat, ws: nat, c: nat, ym: nat, n: nat)
    requires n > 0 && l * bs + ws > c * ym
    ensures (n * l) * bs > (n * c) * ym - n * ws
  {
    TimesPositive(c * ym, l * bs + ws, n);
    Distribute(l * bs, ws, n);
    Associate(n, l, bs);
    Associate(n, c, ym);
  }

  /** One part loses less than one unit of value and one of debt. */
  lemma PartAbove(x: nat, y: nat, c: nat, m: nat)
    requires x > 0
    ensures PartLimit(x, y, c, m) * (BPS * (x + c)) + (m + BPS) * (x + c) > c * (y * m)
  {
    var s, l, o := x + c, PartLimit(x, y, c, m), OutFloor(x, y, c);
    FloorSpec(o * m, BPS);
    FloorSpec(c * y, s);
    MulMono(0, c, 0, y);
    MulMono(c * y, (o + 1) * s, m, m);
    Associate(c, y, m);
    // c * y * m <= (o * m + m) * s < (l * BPS + BPS + m) * s
    assert ((o + 1) * s) * m == (o * m + m) * s by {
      Associate(o + 1, s, m);
      Distribute(o, 1, m);
    }
    TimesPositive(o * m + m, l * BPS + BPS + m, s);
    Distribute(l * BPS, BPS + m, s);
    Associate(l, BPS, s);
  }

  // ---------------------------------------------------------------- through the program

  /** n accounts with the same collateral, each borrowing the same amount. */
  function Equal(n: nat, a: Account): seq<Account> {
    if n == 0 then [] else [a] + Equal(n - 1, a)
  }

  lemma {:induction false} EqualTotals(n: nat, a: Account)
    ensures TotalCollateral(Equal(n, a)) == n * a.collateral && TotalBorrow(Equal(n, a)) == n * a.borrow
  {
    if n > 0 {
      EqualTotals(n - 1, a);
      assert Equal(n, a)[1..] == Equal(n - 1, a);
      Distribute(n - 1, 1, a.collateral);
      Distribute(n - 1, 1, a.borrow);
    }
  }

  lemma {:induction false} EqualAdmissible(v: View, fixedCf: u16, debt: u64, n: nat, a: Account)
    requires a.borrow <= FixedLimit(v, fixedCf, a.collateral, debt) && debt + n * a.borrow <= U64_MAX
    ensures Admissible(FixedRule(v, fixedCf), debt, Equal(n, a))
    decreases n
  {
    if n > 0 {
      Distribute(n - 1, 1, a.borrow);
      MulMono(0, n - 1, 0, a.borrow);
      FixedLimitIgnoresDebt(a.collateral, v.ema, v.directional, v.rc, v.rd, debt, debt + a.borrow, fixedCf);
      EqualAdmissible(v, fixedCf, debt + a.borrow, n - 1, a);
      assert Equal(n, a)[1..] == Equal(n - 1, a);
    }
  }

  /** Under the program's own rule: n accounts of c that each borrow their full limit together
      draw more than one account with all the collateral could, as soon as the guard is missed
      by more than their own impact and rounding. */
  lemma FineSplitBorrowsMore(v: View, fixedCf: u16, debt: u64, n: nat, c: u64)
    requires v.Virtual().Ok? && v.Virtual().value.0 > 0 && v.ema > 0 && v.directional > 0
    requires n > 0 && c > 0 && debt + n * FixedLimit(v, fixedCf, c, debt) <= U64_MAX
    requires FixedLimit(v, fixedCf, c, debt) < U64_MAX
    requires FineSplit(v.Virtual().value.0, v.Virtual().value.1, UsableCf(v, fixedCf), n, c)
    ensures var accounts := Equal(n, Account(c, FixedLimit(v, fixedCf, c, debt)));
      && Admissible(FixedRule(v, fixedCf), debt, accounts)
      && TotalCollateral(accounts) == n * c
      && TotalBorrow(accounts) > OutFloor(v.Virtual().value.0, v.Virtual().value.1, TotalCollateral(accounts))
  {
    var (x, y) := v.Virtual().value;
    var a := Account(c, FixedLimit(v, fixedCf, c, debt));
    FixedLimitIsPart(v, fixedCf, c, debt, x, y);
    FineSplitBeatsOne(x, y, n * c, UsableCf(v, fixedCf), n, c);
    EqualTotals(n, a);
    EqualAdmissible(v, fixedCf, debt, n, a);
  }

  /** A pool scaled by s, its collateral spread over n equal accounts of c. */
  ghost predicate SplitFits(x: nat, y: nat, total: nat, m: nat, s: nat, n: nat, c: nat) {
    s > 0 && x > 0 && n * c == s * total ==>
      && s * x > 0
      && n * PartLimit(s * x, s * y, c, m) <= OutFloor(s * x, s * y, s * total)
  }

  /** The guard is exact up to the granularity of tokens: it holds if and only if at no scale of
      pool and collateral any equal split beats one account. */
  lemma FixedGuardIsExact(x: nat, y: nat, total: nat, m: nat)
    requires x > 0 && y > 0 && total > 0
    ensures m * (x + total) <= BPS * x <==>
            forall s: nat, n: nat, c: nat :: SplitFits(x, y, total, m, s, n, c)
  {
    if m * (x + total) <= BPS * x {
      forall s: nat, n: nat, c: nat ensures SplitFits(x, y, total, m, s, n, c) {
        GuardedSplitFits(x, y, total, m, s, n, c);
      }
    } else {
      UnguardedSplitBeats(x, y, total, m);
    }
  }

  lemma GuardedSplitFits(x: nat, y: nat, total: nat, m: nat, s: nat, n: nat, c: nat)
    requires x > 0 && m * (x + total) <= BPS * x
    ensures SplitFits(x, y, total, m, s, n, c)
  {
    if s > 0 && n * c == s * total {
      MulMono(1, s, 1, x);
      PartBelowMarginal(s * x, s * y, c, m);
      var l := PartLimit(s * x, s * y, c, m);
      MulMono(n, n, l * (BPS * (s * x)), c * ((s * y) * m));
      Associate(n, l, BPS * (s * x));
      Associate(n, c, (s * y) * m);
      MulMono(s, s, m * (x + total), BPS * x);
      Distribute(x, total, s);
      Associate(m, x + total, s);
      Associate(BPS, x, s);
      MarginalFitsCurve(s * x, s * y, s * total, m, n * l);
    }
  }

  lemma UnguardedSplitBeats(x: nat, y: nat, total: nat, m: nat)
    requires x > 0 && y > 0 && total > 0 && m * (x + total) > BPS * x
    ensures var t := 2 * (m + BPS) * ((x + 1) * (x + total));
      !SplitFits(x, y, total, m, 2 * BPS * t, 2 * BPS * total, t)
  {
    MulMono(1, x + 1, 1, x + total);
    var t := (2 * (m + BPS)) * ((x + 1) * (x + total));
    MulMono(1, 2 * (m + BPS), 1, (x + 1) * (x + total));
    var s, n := 2 * BPS * t, 2 * BPS * total;
    assert n * t == s * total by { Associate(2 * BPS, total, t); }
    MulMono(1, s, 1, x);
    FineEnough(x, y, total, m, t, s, n);
    assert s * x + s * total == s * (x + total) by { Distribute(x, total, s); }
    FineSplitBeatsOne(s * x, s * y, s * total, m, n, t);
  }

  lemma FineEnough(x: nat, y: nat, total: nat, m: nat, t: nat, s: nat, n: nat)
    requires y > 0 && m * (x + total) >= BPS * x + 1
    requires t == (2 * (m + BPS)) * ((x + 1) * (x + total)) && s == 2 * BPS * t && n == 2 * BPS * total
    ensures ((s * total) * (s * y)) * (m * (s * x + s * total) - BPS * (s * x + t))
         >= (n * (m + BPS)) * ((s * x + t) * (s * x + s * total))
  {
    var h := BPS * t; // s == 2 * h
    MulMono(0, s, 0, total);
    MulMono(0, s, 0, y);
    // the bracket is at least h
    assert m * (s * x + s * total) - BPS * (s * x + t) >= h by {
      Distribute(x, total, s);
      Associate(m, x + total, s);
      Associate(BPS, x, s);
      MulMono(s, s, BPS * x + 1, m * (x + total));
      Distribute(BPS * x, 1, s);
      Distribute(s * x, t, BPS);
    }
    MulMono(0, s * total, 0, s * y);
    MulMono((s * total) * (s * y), (s * total) * (s * y), h, m * (s * x + s * total) - BPS * (s * x + t));
    LeftSide(total, y, s, h);
    RightSide(x, total, m, t, s, n, h);
  }

  lemma LeftSide(total: nat, y: nat, s: nat, h: nat)
    requires y > 0
    ensures (s * s) * (total * h) <= ((s * total) * (s * y)) * h
  {
    Regroup(s, total, s, y);
    Associate(s * s, total * y, h);
    Associate(total, y, h);
    MulMono(0, total, 0, h);
    MulMono(total * h, (total * h) * y, s * s, s * s);
    MulMono(1, y, total * h, total * h);
    MulMono(0, s, 0, s);
    Associate(s * s, total * h, y);
  }

  lemma RightSide(x: nat, total: nat, m: nat, t: nat, s: nat, n: nat, h: nat)
    requires t == (2 * (m + BPS)) * ((x + 1) * (x + total)) && h == BPS * t
    requires s == 2 * h && n == 2 * BPS * total
    ensures (n * (m + BPS)) * ((s * x + t) * (s * x + s * total)) <= (s * s) * (total * h)
  {
    var a, b := x + 1, x + total;
    MulMono(0, a, 0, b);
    MulMono(0, 2 * (m + BPS), 0, a * b);
    assert s * x + t <= s * a by { Distribute(x, 1, s); }
    Distribute(x, total, s);
    MulMono(0, s, 0, x);
    MulMono(0, s, 0, b);
    MulMono(s * x + t, s * a, s * b, s * b);
    Regroup(s, a, s, b);
    MulMono(n * (m + BPS), n * (m + BPS), (s * x + t) * (s * b), (s * s) * (a * b));
    assert (n * (m + BPS)) * (a * b) == total * h by {
      Associate(2 * BPS * total, m + BPS, a * b);
      Associate(2 * (m + BPS), a * b, BPS);
      assert total * h == total * (BPS * ((2 * (m + BPS)) * (a * b)));
      Factors(total, m + BPS, a * b);
    }
    Associate(n * (m + BPS), s * s, a * b);
    Associate(s * s, n * (m + BPS), a * b);
  }

  lemma Factors(total: nat, w: nat, p: nat)
    ensures ((2 * BPS * total) * w) * p == total * (BPS * ((2 * w) * p))
  {
    Associate(2 * BPS * total, w, p);
    Associate(2, w, p);
    Associate(total, 2 * BPS, w * p);
  }

  // ---------------------------------------------------------------- witness

  /** Against a pool of a million units a side two accounts of half a million each borrow 506,666
      where one account of a million has a capacity of 500,000. */
  lemma FixedFactorDoesNotCrowd()
    ensures PessimisticMaxDebt(500_000, NAD, NAD, 1_000_000, 1_000_000, 0, Some(8_000)) == Ok((253_333, 7_600, 8_000))
    ensures PessimisticMaxDebt(500_000, NAD, NAD, 1_000_000, 1_000_000, 253_333, Some(8_000))
         == Ok((253_333, 7_600, 8_000))
    ensures View(1_000_000, 1_000_000, NAD, NAD).Capacity(1_000_000, 0) == Ok(500_000)
  {
    MillionPool();
    AmountOutValue(1_000_000, 1_000_000, 500_000);
    assert OutFloor(1_000_000, 1_000_000, 500_000) == 333_333;
    FixedLimitFrom(500_000, 0, 333_333, 253_333);
    FixedLimitFrom(500_000, 253_333, 333_333, 253_333);
    CapacityOfMillion(View(1_000_000, 1_000_000, NAD, NAD), 1_000_000, 1_000_000);
  }

  lemma CapacityOfMillion(v: View, r: u64, c: u64)
    requires v.Virtual() == Ok((r, r)) && r == 1_000_000 && c == r
    ensures v.Capacity(c, 0) == Ok(500_000)
  {
    AmountInValue(r, r, 0);
    AmountOutValue(r, r, c);
    assert InCeil(r, r, 0) == 0;
    assert OutFloor(r, r, c) == 500_000;
  }

  lemma FixedLimitFrom(collateral: u64, debt: u64, value: u64, limit: u64)
    requires collateral > 0 && ImpactValue(1_000_000, 1_000_000, NAD, NAD, collateral) == Ok(value)
    requires limit * BPS <= value * 7_600 < (limit + 1) * BPS
    ensures PessimisticMaxDebt(collateral, NAD, NAD, 1_000_000, 1_000_000, debt, Some(8_000))
         == Ok((limit, 7_600, 8_000))
  {
    assert FixedLiquidationCf(8_000, NAD, NAD) == 8_000;
    assert MaxCf(8_000) == 7_600;
    assert ApplyCf(value, 7_600) == limit;
  }
}
