/** What the half-lives come to: the exponential at ln 2 to the last unit, averages that close
    half the distance to a steady price in one half-life, and rates that do not double in one. */
module HalfLife {
  import opened Words
  import opened Nonlinear
  import opened Kernels
  import opened Average
  import opened RateModel
  import opened RateBounds
  import opened RateMotion
  import opened PairState
  import opened Interest
  import Exponential

  // ---------------------------------------------------------------- exact values

  /** t is the i-th Taylor term after `previous`. */
  predicate NextTerm(i: nat, previous: nat, r: nat, t: nat) {
    previous * r <= U128_MAX && t * (i * NAD) <= previous * r < (t + 1) * (i * NAD)
  }

  lemma TermIs(i: nat, r: u128, previous: nat, t: nat)
    requires 1 <= i <= 5 && Term(i - 1, r, NAD) == previous && NextTerm(i, previous, r, t)
    ensures Term(i, r, NAD) == t
  {
    FloorAtLeast(t, previous * r, i * NAD);
    FloorAtLeast(t + 1, previous * r, i * NAD);
  }

  /** The series of five terms, given its terms. */
  lemma SeriesIs(r: u128, t1: nat, t2: nat, t3: nat, t4: nat, t5: nat)
    requires NextTerm(1, NAD, r, t1) && NextTerm(2, t1, r, t2) && NextTerm(3, t2, r, t3)
    requires NextTerm(4, t3, r, t4) && NextTerm(5, t4, r, t5)
    requires NAD + t1 + t2 + t3 + t4 + t5 <= U128_MAX
    ensures Sum(5, r, NAD) == NAD + t1 + t2 + t3 + t4 + t5
  {
    TermIs(1, r, NAD, t1);
    TermIs(2, r, t1, t2);
    TermIs(3, r, t2, t3);
    TermIs(4, r, t3, t4);
    TermIs(5, r, t4, t5);
    assert Sum(1, r, NAD) == NAD + t1;
    assert Sum(2, r, NAD) == NAD + t1 + t2;
    assert Sum(3, r, NAD) == NAD + t1 + t2 + t3;
    assert Sum(4, r, NAD) == NAD + t1 + t2 + t3 + t4;
  }

  /** q is `before` times sum / NAD, rounded down. */
  predicate NextPower(before: nat, sum: nat, q: nat) {
    before * sum <= U128_MAX && q * NAD <= before * sum < (q + 1) * NAD
  }

  lemma PowerIs(j: nat, sum: u128, before: nat, q: nat)
    requires j > 0 && Power(j - 1, sum, NAD) == before && NextPower(before, sum, q)
    ensures Power(j, sum, NAD) == q
  {
    FloorAtLeast(q, before * sum, NAD);
    FloorAtLeast(q + 1, before * sum, NAD);
  }

  lemma TenthPowerIs(sum: u128, p2: nat, p3: nat, p4: nat, p5: nat, p6: nat, p7: nat, p8: nat, p9: nat, p10: nat)
    requires NextPower(sum, sum, p2) && NextPower(p2, sum, p3) && NextPower(p3, sum, p4) && NextPower(p4, sum, p5)
    requires NextPower(p5, sum, p6) && NextPower(p6, sum, p7) && NextPower(p7, sum, p8) && NextPower(p8, sum, p9)
    requires NextPower(p9, sum, p10)
    requires NAD * sum <= U128_MAX
    ensures Power(10, sum, NAD) == p10
  {
    PowerIs(1, sum, NAD, sum);
    PowerIs(2, sum, sum, p2);
    PowerIs(3, sum, p2, p3);
    PowerIs(4, sum, p3, p4);
    PowerIs(5, sum, p4, p5);
    PowerIs(6, sum, p5, p6);
    PowerIs(7, sum, p6, p7);
    PowerIs(8, sum, p7, p8);
    PowerIs(9, sum, p8, p9);
    PowerIs(10, sum, p9, p10);
  }

  /** The factor of an exponent below 2^63, from its reduced sum and its tenth power. */
  lemma DecayIs(x: u128, sum: u128, power: u128, d: nat)
    requires 0 < x < -I64_MIN && Sum(5, x / 10, NAD) == sum && Power(10, sum, NAD) == power
    requires power > 0 && d * power <= NAD * NAD < (d + 1) * power
    ensures Decay(x) == Ok(d)
  {
    Exponential.CastKeepsSmall(x);
    Exponential.TaylorExpUnfold(x);
    FloorAtLeast(d, NAD * NAD, power);
    FloorAtLeast(d + 1, NAD * NAD, power);
  }

  /** An exponent of ln 2 halves, to eight parts in a billion. */
  lemma HalfAtLn2()
    ensures Decay(693_147_180) == Ok(500_000_008)
  {
    SeriesIs(69_314_718, 69_314_718, 2_402_265, 55_504, 961, 13);
    TenthPowerIs(1_071_773_461, 1_148_698_351, 1_231_144_407, 1_319_507_902, 1_414_213_550, 1_515_716_551,
                 1_624_504_773, 1_741_101_102, 1_866_065_954, 1_999_999_965);
    DecayIs(693_147_180, 1_071_773_461, 1_999_999_965, 500_000_008);
  }

  lemma QuarterAtTwiceLn2()
    ensures Decay(1_386_294_360) == Ok(250_000_028)
  {
    SeriesIs(138_629_436, 138_629_436, 9_609_060, 444_032, 15_388, 426);
    TenthPowerIs(1_148_698_342, 1_319_507_880, 1_515_716_514, 1_741_101_046, 1_999_999_884, 2_297_396_550,
                 2_639_015_607, 3_031_432_852, 3_482_201_890, 3_999_999_537);
    DecayIs(1_386_294_360, 1_148_698_342, 3_999_999_537, 250_000_028);
  }

  // ---------------------------------------------------------------- averages

  /** The mean of two prices with 500,000,008 billionths on the old one. */
  function Halfway(last: u64, input: u64): int {
    (input * 499_999_992 + last * 500_000_008) / NAD
  }

  function ThreeQuarters(last: u64, input: u64): int {
    (input * 749_999_972 + last * 250_000_028) / NAD
  }

  /** After one half-life, at 400 milliseconds a slot, an average has come half the way; after
      two, three quarters. Without time or without a half-life it stays. */
  lemma EmaHalves(last: u64, lastUpdate: u64, input: u64, halfLife: u64, slot: u64)
    requires lastUpdate <= slot
    ensures slot == lastUpdate || (halfLife == 0 && 400 * (slot - lastUpdate) <= U64_MAX)
      ==> ComputeEma(last, lastUpdate, input, halfLife, slot) == Ok(last)
    ensures slot > lastUpdate && 400 * (slot - lastUpdate) == halfLife
      ==> ComputeEma(last, lastUpdate, input, halfLife, slot) == Ok(Halfway(last, input))
    ensures slot > lastUpdate && 400 * (slot - lastUpdate) == 2 * halfLife <= U64_MAX
      ==> ComputeEma(last, lastUpdate, input, halfLife, slot) == Ok(ThreeQuarters(last, input))
  {
    if slot > lastUpdate && 400 * (slot - lastUpdate) == halfLife {
      ExponentOfMultiple(1, halfLife);
      HalfAtLn2();
    }
    if slot > lastUpdate && 400 * (slot - lastUpdate) == 2 * halfLife <= U64_MAX {
      ExponentOfMultiple(2, halfLife);
      QuarterAtTwiceLn2();
    }
  }

  lemma ExponentOfMultiple(n: nat, halfLife: u64)
    requires halfLife > 0 && n * halfLife <= U64_MAX
    ensures DecayExponent(n * halfLife, halfLife) == n * 693_147_180
  {
    Associate(n, halfLife, LN2_NAD);
    Associate(n, LN2_NAD, halfLife);
    FloorAtLeast(n * LN2_NAD, (n * halfLife) * LN2_NAD, halfLife);
    FloorAtLeast(n * LN2_NAD + 1, (n * halfLife) * LN2_NAD, halfLife);
    Distribute(n * LN2_NAD, 1, halfLife);
  }

  /** The pair's own averages: the symmetric one moves by the pair's half-life, the directional
      one by three seconds from the lower of its old value and the spot. */
  lemma UpdateHalves(p: State, slot: u64, m: Model, interestBps: u16, zero: bool)
    requires PairState.Update(p, slot, m, interestBps).Ok? && slot > p.lastUpdate
    ensures var e, e', spot := p.EmaOf(zero), PairState.Update(p, slot, m, interestBps).value.EmaOf(zero), p.Spot(zero);
      && (400 * (slot - p.lastUpdate) == p.halfLife ==> e'.symmetric == Halfway(e.symmetric, spot))
      && (slot == p.lastUpdate + 15 ==> e'.directional == ThreeQuarters(Min(e.directional, spot), spot))
  {
    var e, spot := p.EmaOf(zero), p.Spot(zero);
    PairAverages(p, slot, m, interestBps, zero);
    EmaHalves(e.symmetric, p.lastUpdate, spot, p.halfLife, slot);
    EmaHalves(Min(e.directional, spot), p.lastUpdate, spot, 3_000, slot);
    DirectionalTracksDrops(e, p.lastUpdate, spot, p.halfLife, slot);
  }

  /** And over every window each average moves as its own half-life says. */
  lemma UpdateMoves(p: State, slot: u64, m: Model, interestBps: u16, zero: bool, e': Ema)
    requires slot > p.lastUpdate && p.halfLife > 0
    requires Average.Representable(p.lastUpdate, p.halfLife, slot) && Average.Representable(p.lastUpdate, 3_000, slot)
    requires PairState.Update(p, slot, m, interestBps).Ok?
    requires e' == PairState.Update(p, slot, m, interestBps).value.EmaOf(zero)
    ensures var e, spot, dt := p.EmaOf(zero), p.Spot(zero), 400 * (slot - p.lastUpdate);
      && Moves(e.symmetric, spot, e'.symmetric, dt * 693_147_180 / p.halfLife)
      && Moves(Min(e.directional, spot), spot, e'.directional, dt * 693_147_180 / 3_000)
  {
    PairAverages(p, slot, m, interestBps, zero);
    AveragesMove(p.EmaOf(zero), p.lastUpdate, p.Spot(zero), p.halfLife, slot, e');
  }

  /** Each orientation's averages are updated from its own averages and its own spot. */
  lemma PairAverages(p: State, slot: u64, m: Model, interestBps: u16, zero: bool)
    requires PairState.Update(p, slot, m, interestBps).Ok? && slot > p.lastUpdate
    ensures UpdateEma(p.EmaOf(zero), p.lastUpdate, p.Spot(zero), p.halfLife, slot)
         == Ok(PairState.Update(p, slot, m, interestBps).value.EmaOf(zero))
  {
  }

  lemma AveragesMove(e: Ema, lastUpdate: u64, spot: u64, halfLife: u64, slot: u64, e': Ema)
    requires slot > lastUpdate && halfLife > 0
    requires Average.Representable(lastUpdate, halfLife, slot) && Average.Representable(lastUpdate, 3_000, slot)
    requires UpdateEma(e, lastUpdate, spot, halfLife, slot) == Ok(e')
    ensures var dt := 400 * (slot - lastUpdate);
      && Moves(e.symmetric, spot, e'.symmetric, dt * 693_147_180 / halfLife)
      && Moves(Min(e.directional, spot), spot, e'.directional, dt * 693_147_180 / 3_000)
  {
    EmaMoves(e.symmetric, lastUpdate, spot, halfLife, slot);
    EmaMoves(Min(e.directional, spot), lastUpdate, spot, 3_000, slot);
    DirectionalTracksDrops(e, lastUpdate, spot, halfLife, slot);
  }

  /** Reading a price before an update previews what the update would store; the directional one
      where the price has not fallen. */
  lemma PricesPreviewUpdate(p: State, slot: u64, m: Model, interestBps: u16, zero: bool)
    requires PairState.Update(p, slot, m, interestBps).Ok? && slot > p.lastUpdate && p.SideOf(zero).reserve > 0
    ensures var e' := PairState.Update(p, slot, m, interestBps).value.EmaOf(zero);
      && p.EmaPrice(zero, slot) == Ok(e'.symmetric)
      && (p.EmaOf(zero).directional <= p.Spot(zero) ==> p.DirectionalPrice(zero, slot) == Ok(e'.directional))
  {
    DirectionalTracksDrops(p.EmaOf(zero), p.lastUpdate, p.Spot(zero), p.halfLife, slot);
  }

  /** A token without a reserve has no price. */
  lemma NoPriceWithoutReserve(p: State, zero: bool, slot: u64)
    requires p.SideOf(zero).reserve == 0
    ensures p.Spot(zero) == 0 && p.EmaPrice(zero, slot) == Ok(0) && p.DirectionalPrice(zero, slot) == Ok(0)
  {
  }

  // ---------------------------------------------------------------- rates

  /** At the default half-life of three days the growth constant is 2 where ln 2 over three days
      is 2.67, and in three days two percent grow to 3.36, not to four. */
  lemma DefaultRateDoesNotDouble()
    ensures New(3_000, 5_000, 259_200_000, 100, 0, 200)
         == Ok(Model(2, 300_000_000, 500_000_000, 259_200_000, 10_000_000, 0, 20_000_000))
    ensures var m := Model(2, 300_000_000, 500_000_000, 259_200_000, 10_000_000, 0, 20_000_000);
      var grown := CalculateRate(m, 20_000_000, 259_200_000, 900_000_000);
      grown.Ok? && grown.value.0 == 33_586_770
  {
    ModelValues(3_000, 5_000, 259_200_000, 100, 0, 200);
    var m := Model(2, 300_000_000, 500_000_000, 259_200_000, 10_000_000, 0, 20_000_000);
    DefaultDecay();
    GrownBy(m, 20_000_000, 259_200_000, 900_000_000, 595_472_560, 33_586_770);
  }

  lemma DefaultDecay()
    ensures Decay(518_400_000) == Ok(595_472_560)
  {
    SeriesIs(51_840_000, 51_840_000, 1_343_692, 23_218, 300, 3);
    TenthPowerIs(1_053_207_213, 1_109_245_433, 1_168_265_291, 1_230_425_431, 1_295_892_938, 1_364_843_789,
                 1_437_463_323, 1_513_946_740, 1_594_499_626, 1_679_338_507);
    DecayIs(518_400_000, 1_053_207_213, 1_679_338_507, 595_472_560);
  }

  lemma GrownBy(m: Model, last: u64, dt: u64, util: u64, gd: u64, r: u64)
    requires m.expRate > 0 && m.maxRate == 0 && util > m.targetEnd && m.minRate <= last && dt > 0 && gd > 0
    requires m.expRate * dt <= U128_MAX && Decay(m.expRate * dt) == Ok(gd)
    requires r * gd <= last * NAD < (r + 1) * gd
    ensures CalculateRate(m, last, dt, util).Ok? && CalculateRate(m, last, dt, util).value.0 == r
  {
    FloorAtLeast(r, last * NAD, gd);
    FloorAtLeast(r + 1, last * NAD, gd);
  }

  /** Where the half-life divides ln 2 the exponent of one half-life is exactly ln 2 and the rate
      doubles, to two parts in a hundred million; elsewhere the exponent falls short of it. */
  lemma ExponentOfHalfLife(halfLifeMs: u64)
    requires 0 < halfLifeMs <= 693_147_180
    ensures var e := LN2_NAD / halfLifeMs;
      && e * halfLifeMs == 693_147_180 - 693_147_180 % halfLifeMs
      && (693_147_180 % halfLifeMs == 0 ==> Decay(e * halfLifeMs) == Ok(500_000_008))
  {
    QuotientAndRemainder(693_147_180, halfLifeMs);
    HalfAtLn2();
  }

  lemma QuotientAndRemainder(n: nat, d: nat)
    requires d > 0
    ensures (n / d) * d == n - n % d
  {
  }
}
