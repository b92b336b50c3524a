/** Room for one more borrower as pool debt grows. The tests expect it never to grow; rounding
    the quote of the outstanding debt up makes it grow at times, by an amount given exactly. */
module Room {
  import opened Words
  import opened Nonlinear
  import opened Kernels
  import opened Curve
  import opened VirtualReserves
  import opened BorrowLimit
  import opened Splitting

  /** Raw room at virtual reserves (x, y): what the pool's capacity adds to its debt. */
  function Room(x: nat, y: nat, collateral: nat, debt: nat): int
    requires debt < y && x > 0
  {
    OutFloor(x, y, InCeil(x, y, debt) + collateral) - debt
  }

  /** It is the room the program computes. */
  lemma CapacityIsRoom(v: View, collateral: u64, debt: u64)
    requires v.Virtual().Ok? && v.Virtual().value.0 > 0 && collateral > 0 && v.Capacity(collateral, debt).Ok?
    ensures var (x, y) := v.Virtual().value;
      debt < y && v.Capacity(collateral, debt).value - debt == Room(x, y, collateral, debt)
  {
    CapacityValue(v, collateral, debt);
  }

  lemma RoomNonNegative(x: nat, y: nat, collateral: nat, debt: nat)
    requires debt < y && x > 0
    ensures Room(x, y, collateral, debt) >= 0
  {
    Adjunction(x, y, InCeil(x, y, debt) + collateral, debt);
  }

  // ---------------------------------------------------------------- the cause

  /** Without the rounding of the quote room cannot grow: counting any input w that does not
      exceed the exact cost of the larger debt, the room left is at most the old room. */
  lemma UnroundedRoomNeverGrows(x: nat, y: nat, collateral: nat, debt: nat, more: nat, w: nat)
    requires debt <= more < y && x > 0 && w * (y - more) <= more * x
    ensures OutFloor(x, y, w + collateral) - more <= Room(x, y, collateral, debt)
  {
    var r := OutFloor(x, y, w + collateral) - more;
    RoomNonNegative(x, y, collateral, debt);
    if r > 0 {
      OutFloorBelowReserve(x, y, w + collateral);
      FloorSpec((w + collateral) * y, x + (w + collateral));
      CollateralBuys(x, y, collateral, more, w, r);
      CeilSpec(debt * x, y - debt);
      CollateralBuysEarlier(x, y, collateral, debt, InCeil(x, y, debt), r, more);
      FloorAtLeast(debt + r, (InCeil(x, y, debt) + collateral) * y, x + (InCeil(x, y, debt) + collateral));
    }
  }

  /** If w + c buys more + r and w costs at most the exact price of more, then c alone pays for
      the r units between them. */
  lemma CollateralBuys(x: nat, y: nat, c: nat, more: nat, w: nat, r: nat)
    requires more + r < y && w * (y - more) <= more * x
    requires (more + r) * (x + (w + c)) <= (w + c) * y
    ensures x * (y * r) <= c * ((y - more) * (y - more - r))
  {
    var p, q := y - more, y - more - r;
    assert (more + r) * x <= (w + c) * q by {
      Distribute(x, w + c, more + r);
      DistributeMinus(y, more + r, w + c);
    }
    MulMono((more + r) * x, (w + c) * q, p, p);
    Distribute(w, c, q);
    Distribute(w * q, c * q, p);
    Associate(w, q, p);
    Associate(c, q, p);
    assert (w * p) * q <= (more * x) * q by { MulMono(w * p, more * x, q, q); }
    assert ((more + r) * x) * p - (more * x) * q == x * (y * r) by { CostDifference(x, y, more, r); }
  }

  lemma CostDifference(x: int, y: int, d: int, r: int)
    ensures ((d + r) * x) * (y - d) - (d * x) * (y - d - r) == x * (y * r)
  {
    var p := y - d;
    Distribute(d, r, x);
    Distribute(d * x, r * x, p);
    DistributeMinus(p, r, d * x);
    assert (r * x) * p + (d * x) * r == x * (y * r) by {
      Associate(r, x, p);
      Associate(d, x, r);
      Distribute(p, d, x * r);
      Associate(x, r, p);
      Associate(x, r, d);
      Associate(x, y, r);
    }
  }

  /** The same c pays for r units at any smaller debt, where they are cheaper. */
  lemma CollateralBuysEarlier(x: nat, y: nat, c: nat, debt: nat, u: nat, r: nat, more: nat)
    requires debt <= more && more + r < y && debt * x <= u * (y - debt)
    requires x * (y * r) <= c * ((y - more) * (y - more - r))
    ensures (debt + r) * (x + (u + c)) <= (u + c) * y
  {
    var p, q := y - debt, y - debt - r;
    MulMono(y - more, p, y - more - r, q);
    MulMono(c, c, (y - more) * (y - more - r), p * q);
    MulMono(debt * x, u * p, q, q);
    CostDifference(x, y, debt, r);
    Associate(u, p, q);
    Associate(c, p, q);
    Distribute(u, c, q);
    Distribute(u * q, c * q, p);
    Associate(u, q, p);
    Associate(c, q, p);
    CancelLe((debt + r) * x, (u + c) * q, p);
    Distribute(x, u + c, debt + r);
    DistributeMinus(y, debt + r, u + c);
  }

  /** So room does not grow whenever the larger debt is quoted exactly. */
  lemma ExactQuoteNeverGrowsRoom(x: nat, y: nat, collateral: nat, debt: nat, more: nat)
    requires debt <= more < y && x > 0 && (more * x) % (y - more) == 0
    ensures Room(x, y, collateral, more) <= Room(x, y, collateral, debt)
  {
    var p, q := y - more, more * x / (y - more);
    MulMono(0, more, 0, x);
    FloorSpec(more * x, p);
    FloorAtLeast(0, more * x, p);
    assert more * x == q * p;
    CeilAtMost(q, more * x, p);
    DistributeMinus(q, 1, p);
    CeilAtMost(q - 1, more * x, p);
    UnroundedRoomNeverGrows(x, y, collateral, debt, more, InCeil(x, y, more));
  }

  /** And it grows by at most what the last unit of the quote buys on top of the collateral. */
  lemma RoomGrowsAtMost(x: nat, y: nat, collateral: nat, debt: nat, more: nat)
    requires debt <= more < y && x > 0 && more > 0
    ensures InCeil(x, y, more) > 0
    ensures var u := InCeil(x, y, more);
      Room(x, y, collateral, more) <= Room(x, y, collateral, debt)
        + OutFloor(x, y, u + collateral) - OutFloor(x, y, u - 1 + collateral)
  {
    var u := InCeil(x, y, more);
    MulMono(1, more, 1, x);
    CeilAtMost(0, more * x, y - more);
    CeilSpec(more * x, y - more);
    UnroundedRoomNeverGrows(x, y, collateral, debt, more, u - 1);
  }

  // ---------------------------------------------------------------- the exact size

  /** A condition on reserves, collateral and the quotes of the two debts; no proceeds occur. */
  predicate GrowsAtMost(x: nat, y: nat, collateral: nat, debt: nat, more: nat, g: int)
    requires debt <= more < y && x > 0
  {
    var u, u' := InCeil(x, y, debt), InCeil(x, y, more);
    var before, after := x + (u + collateral), x + (u' + collateral);
    StepFits(((u + collateral) * y) % before, before, after, (x * y) * (u' - u), more - debt + g)
  }

  /** Room grows by at most g, for every g, if and only if that condition holds; with g = 0, room
      does not grow. */
  lemma RoomGrowsAtMostIff(x: nat, y: nat, collateral: nat, debt: nat, more: nat, g: int)
    requires debt <= more < y && x > 0
    ensures Room(x, y, collateral, more) - Room(x, y, collateral, debt) <= g <==>
            GrowsAtMost(x, y, collateral, debt, more, g)
  {
    var u, u' := InCeil(x, y, debt), InCeil(x, y, more);
    ProceedsGrowAtMostIff(x, y, u + collateral, u' + collateral, more - debt + g);
    assert (u' + collateral) - (u + collateral) == u' - u;
  }

  /** Proceeds of b exceed proceeds of a by at most n, compared through the remainder of a. */
  lemma ProceedsGrowAtMostIff(x: nat, y: nat, a: nat, b: nat, n: int)
    requires x > 0
    ensures OutFloor(x, y, b) - OutFloor(x, y, a) <= n <==>
            StepFits((a * y) % (x + a), x + a, x + b, (x * y) * (b - a), n)
  {
    var q, rem := a * y / (x + a), (a * y) % (x + a);
    MulMono(0, a, 0, y);
    FloorAtLeast(q + n + 1, b * y, x + b);
    ProceedsCross(x, y, a, b);
    assert a * y == q * (x + a) + rem;
    QuotientStep(q, rem, x + a, b * y, x + b, (x * y) * (b - a), n);
  }

  /** rem / s plus cross / (s * t) stays below n + 1. */
  predicate StepFits(rem: int, s: int, t: int, cross: int, n: int) {
    rem * t + cross < (n + 1) * (s * t)
  }

  lemma QuotientStep(q: int, rem: int, s: int, b: int, t: int, cross: int, n: int)
    requires s > 0 && t > 0 && b * s == (q * s + rem) * t + cross
    ensures b < (q + n + 1) * t <==> StepFits(rem, s, t, cross, n)
  {
    calc {
      ((q + n + 1) * t - b) * s;
    ==  { DistributeMinus((q + n + 1) * t, b, s); Associate(q + n + 1, t, s); Distribute(q * s, rem, t); }
      (q + n + 1) * (s * t) - (q * s) * t - rem * t - cross;
    ==  { Distribute(q, n + 1, s * t); Associate(q, s, t); }
      (n + 1) * (s * t) - rem * t - cross;
    }
    SameSign((q + n + 1) * t - b, s, (n + 1) * (s * t) - rem * t - cross);
  }

  lemma ProceedsCross(x: int, y: int, a: int, b: int)
    ensures (b * y) * (x + a) == (a * y) * (x + b) + (x * y) * (b - a)
  {
    Distribute(x, a, b * y);
    Distribute(x, b, a * y);
    DistributeMinus(b, a, x * y);
    Associate(b, y, x);
    Associate(a, y, x);
    Associate(b, y, a);
    Associate(a, y, b);
  }

  /** The first unit of debt, in the reserves and the collateral alone. */
  lemma FirstUnitIff(x: nat, y: nat, collateral: nat, g: int)
    requires 0 < x < y
    ensures Room(x, y, collateral, 1) - Room(x, y, collateral, 0) <= g <==>
            StepFits((collateral * y) % (x + collateral), x + collateral, x + collateral + 1, x * y, g + 1)
  {
    FirstQuotes(x, y);
    ProceedsGrowAtMostIff(x, y, collateral, 1 + collateral, g + 1);
    assert (x * y) * (1 + collateral - collateral) == x * y;
  }

  lemma FirstQuotes(x: nat, y: nat)
    requires 0 < x < y
    ensures InCeil(x, y, 0) == 0 && InCeil(x, y, 1) == 1
  {
    CeilAtMost(0, 0, y);
    CeilAtMost(-1, 0, y);
    CeilAtMost(1, x, y - 1);
    CeilAtMost(0, x, y - 1);
  }

  // ---------------------------------------------------------------- witnesses

  /** A million units a side at price one: the first unit of debt adds one unit of room. */
  lemma RoomCanGrow()
    ensures var v := View(1_000_000, 1_000_000, NAD, NAD);
      v.Capacity(10_000, 0) == Ok(9_900) && v.Capacity(10_000, 1) == Ok(9_902)
  {
    MillionPool();
    MillionQuotes();
    CapacityAt(View(1_000_000, 1_000_000, NAD, NAD), 1_000_000, 1_000_000, 10_000, 0, 0, 9_900);
    CapacityAt(View(1_000_000, 1_000_000, NAD, NAD), 1_000_000, 1_000_000, 10_000, 1, 2, 9_902);
  }

  /** In a pool with a large price asymmetry it adds almost a million: one unit of collateral is
      worth about 900,000 units of debt, and the quote of a single unit is a whole one. */
  lemma RoomCanGrowALot()
    ensures var v := View(3_341_694_358, 2_957_700_173_774_845, 903_353_968_854_947, 903_353_968_854_947);
      v.Capacity(1_000, 0) == Ok(903_353_695) && v.Capacity(1_000, 1) == Ok(904_257_049)
  {
    var v := View(3_341_694_358, 2_957_700_173_774_845, 903_353_968_854_947, 903_353_968_854_947);
    AsymmetricPool(3_341_694_358, 2_957_700_173_774_845, 903_353_968_854_947);
    AsymmetricQuotes();
    CapacityAt(v, 3_307_740_704, 2_988_060_693_419_397, 1_000, 0, 0, 903_353_695);
    CapacityAt(v, 3_307_740_704, 2_988_060_693_419_397, 1_000, 1, 1, 904_257_049);
  }

  /** At virtual reserves (x, y) the debt is quoted at `utilized`, and with the collateral on top
      that buys `out`. */
  predicate Quoted(x: nat, y: nat, collateral: nat, debt: nat, utilized: nat, out: nat) {
    && (utilized - 1) * (y - debt) < debt * x <= utilized * (y - debt)
    && out * (x + (utilized + collateral)) <= (utilized + collateral) * y
    && (utilized + collateral) * y < (out + 1) * (x + (utilized + collateral))
  }

  lemma MillionQuotes()
    ensures Quoted(1_000_000, 1_000_000, 10_000, 0, 0, 9_900)
    ensures Quoted(1_000_000, 1_000_000, 10_000, 1, 2, 9_902)
  {
  }

  lemma AsymmetricQuotes()
    ensures Quoted(3_307_740_704, 2_988_060_693_419_397, 1_000, 0, 0, 903_353_695)
    ensures Quoted(3_307_740_704, 2_988_060_693_419_397, 1_000, 1, 1, 904_257_049)
  {
  }

  lemma CapacityAt(v: View, x: u64, y: u64, collateral: u64, debt: u64, utilized: u64, out: u64)
    requires v.Virtual() == Ok((x, y)) && x > 0 && debt < y && utilized + collateral <= U64_MAX
    requires Quoted(x, y, collateral, debt, utilized, out)
    ensures v.Capacity(collateral, debt) == Ok(out)
  {
    QuotedIs(x, y, collateral, debt, utilized, out);
    AmountInValue(x, y, debt);
    AmountOutValue(x, y, utilized + collateral);
  }

  lemma QuotedIs(x: nat, y: nat, collateral: nat, debt: nat, utilized: nat, out: nat)
    requires Quoted(x, y, collateral, debt, utilized, out) && x > 0 && debt < y
    ensures InCeil(x, y, debt) == utilized && OutFloor(x, y, utilized + collateral) == out
  {
    CeilAtMost(utilized, debt * x, y - debt);
    CeilAtMost(utilized - 1, debt * x, y - debt);
    FloorAtLeast(out, (utilized + collateral) * y, x + (utilized + collateral));
    FloorAtLeast(out + 1, (utilized + collateral) * y, x + (utilized + collateral));
  }

  lemma AsymmetricPool(rc: u64, rd: u64, price: u64)
    requires rc == 3_341_694_358 && rd == 2_957_700_173_774_845 && price == 903_353_968_854_947
    ensures AtPrice(rc, rd, price) == Ok((3_307_740_704, 2_988_060_693_419_397))
  {
    var k := 9_883_729_983_359_019_098_824_510;
    assert Product(rc, rd) == k;
    DirectX(rc, rd, price, k, 10_941_148_568_691_422_356);
    SplitY(rc, rd, price, k, 2_671_850_190_662_472_659_803);
    AtPriceFrom(rc, rd, price, 10_941_148_568_691_422_356, 8_928_506_707_558_009_169_592_938_491_474,
                3_307_740_704, 2_988_060_693_419_397);
  }
}
