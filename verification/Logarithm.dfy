/** The fixed-point natural logarithm of state/rate_model.rs: range reduction by two loops,
    then a five-term series whose divisions truncate towards zero. */
module Logarithm {
  import opened Words
  import opened Nonlinear

  /** Rust's signed division by a positive number. */
  function TruncDiv(a: int, b: int): int
    requires b > 0
  {
    if a >= 0 then a / b else -((-a) / b)
  }

  /** The first loop: double up to at least NAD / 2. */
  function ScaleUp(z: int, k: int): (r: (int, int))
    requires z > 0
    ensures NAD / 2 <= r.0
    ensures if z < NAD / 2 then r.0 < NAD else r == (z, k)
    decreases NAD / 2 - z
  {
    if z < NAD / 2 then ScaleUp(2 * z, k - 1) else (z, k)
  }

  /** The second loop: halve down to below 2 * NAD. */
  function ScaleDown(z: int, k: int): (r: (int, int))
    requires z >= NAD / 2
    ensures NAD / 2 <= r.0 < 2 * NAD
    decreases z
  {
    if z >= 2 * NAD then ScaleDown(z / 2, k + 1) else (z, k)
  }

  function Reduce(x: int): (r: (int, int))
    requires x > 0
    ensures NAD / 2 <= r.0 < 2 * NAD
  {
    var up := ScaleUp(x, 0);
    ScaleDown(up.0, up.1)
  }

  /** v = (z - 1) / (z + 1) in fixed point. */
  function Tanh(z: int): int
    requires z > -NAD
  {
    TruncDiv((z - NAD) * NAD, z + NAD)
  }

  /** v + v^3 / 3 + v^5 / 5 + v^7 / 7 + v^9 / 9 in fixed point. */
  function Series(v: int): int {
    var v2 := Times(v, v);
    var v3 := Times(v2, v);
    var v5 := Times(v3, v2);
    var v7 := Times(v5, v2);
    var v9 := Times(v7, v2);
    v + Tail(v3, v5, v7, v9)
  }

  function Times(a: int, b: int): int {
    TruncDiv(a * b, NAD)
  }

  function Tail(v3: int, v5: int, v7: int, v9: int): int {
    TruncDiv(v3, 3) + TruncDiv(v5, 5) + TruncDiv(v7, 7) + TruncDiv(v9, 9)
  }

  function LnNad(x: int): int
    requires x > 0
  {
    var (z, k) := Reduce(x);
    2 * Series(Tanh(z)) + k * LN2_NAD
  }

  method ComputeLn(x: u64) returns (ln: int)
    requires x > 0
    ensures ln == LnNad(x)
  {
    var z: int := x;
    var k := 0;
    while z < NAD / 2
      invariant z > 0 && ScaleUp(z, k) == ScaleUp(x, 0)
      decreases NAD / 2 - z
    {
      z := 2 * z;
      k := k - 1;
    }
    while z >= 2 * NAD
      invariant z >= NAD / 2 && ScaleDown(z, k) == Reduce(x)
      decreases z
    {
      z := z / 2;
      k := k + 1;
    }
    assert (z, k) == Reduce(x);
    var num := (z - NAD) * NAD;
    var den := Max(z + NAD, 1);
    var v := TruncDiv(num, den);
    var v2 := Times(v, v);
    var v3 := Times(v2, v);
    var v5 := Times(v3, v2);
    var v7 := Times(v5, v2);
    var v9 := Times(v7, v2);
    var series := v + TruncDiv(v3, 3) + TruncDiv(v5, 5) + TruncDiv(v7, 7) + TruncDiv(v9, 9);
    ln := 2 * series + k * LN2_NAD;
  }

  // ---------------------------------------------------------------- the series

  lemma TanhMono(a: int, b: int)
    requires NAD <= a <= b
    ensures 0 <= Tanh(a) <= Tanh(b)
  {
    var q := (a - NAD) * NAD / (a + NAD);
    FloorSpec((a - NAD) * NAD, a + NAD);
    FloorAtLeast(0, (a - NAD) * NAD, a + NAD);
    CancelLe(q, NAD, a + NAD);
    Distribute(a + NAD, b - a, q);
    MulMono(q, NAD, b - a, b - a);
    FloorAtLeast(q, (b - NAD) * NAD, b + NAD);
  }

  lemma TimesMono(a: int, b: int, c: int, d: int)
    requires 0 <= a <= b && 0 <= c <= d
    ensures 0 <= Times(a, c) <= Times(b, d)
  {
    MulMono(a, b, c, d);
    FloorMono(a * c, b * d, NAD);
  }

  lemma SeriesMono(a: int, b: int)
    requires 0 <= a <= b
    ensures a <= Series(a) <= Series(b)
  {
    TimesMono(a, b, a, b);
    var a2, b2 := Times(a, a), Times(b, b);
    TimesMono(a2, b2, a, b);
    var a3, b3 := Times(a2, a), Times(b2, b);
    TimesMono(a3, b3, a2, b2);
    var a5, b5 := Times(a3, a2), Times(b3, b2);
    TimesMono(a5, b5, a2, b2);
    var a7, b7 := Times(a5, a2), Times(b5, b2);
    TimesMono(a7, b7, a2, b2);
    TailMono(a3, a5, a7, Times(a7, a2), b3, b5, b7, Times(b7, b2));
  }

  lemma TailMono(a3: int, a5: int, a7: int, a9: int, b3: int, b5: int, b7: int, b9: int)
    requires 0 <= a3 <= b3 && 0 <= a5 <= b5 && 0 <= a7 <= b7 && 0 <= a9 <= b9
    ensures 0 <= Tail(a3, a5, a7, a9) <= Tail(b3, b5, b7, b9)
  {
  }

  /** At the top of the range the series is still below ln 2. */
  lemma SeriesBelowLn2(z: int)
    requires NAD <= z < 2 * NAD
    ensures 2 * Series(Tanh(z)) <= LN2_NAD
  {
    TanhMono(z, z);
    TanhBelowThird(z);
    SeriesMono(Tanh(z), 333_333_333);
    SeriesOfThird();
  }

  lemma TanhBelowThird(z: int)
    requires NAD <= z < 2 * NAD
    ensures Tanh(z) <= 333_333_333
  {
    FloorAtLeast(333_333_334, (z - NAD) * NAD, z + NAD);
  }

  lemma SeriesOfThird()
    ensures Series(333_333_333) == 346_573_022
  {
    assert Times(333_333_333, 333_333_333) == 111_111_110;
    assert Times(111_111_110, 333_333_333) == 37_037_036;
    assert Times(37_037_036, 111_111_110) == 4_115_226;
    assert Times(4_115_226, 111_111_110) == 457_247;
    assert Times(457_247, 111_111_110) == 50_805;
  }

  /** A product of two fixed-point numbers at most one is at most either. */
  lemma TimesShrinks(a: int, b: int)
    requires 0 <= a && 0 <= b <= NAD
    ensures 0 <= Times(a, b) <= a
  {
    MulMono(a, a, b, NAD);
    FloorMono(a * b, a * NAD, NAD);
    MulMono(0, a, 0, b);
  }

  /** 2 * artanh(v) never exceeds z - 1. */
  lemma SeriesBelowLinear(z: int)
    requires NAD <= z < 2 * NAD
    ensures 2 * Series(Tanh(z)) <= z - NAD
  {
    TanhMono(z, z);
    SquareOfTanh(z);
    TailBelowSquare(Tanh(z));
  }

  lemma SquareOfTanh(z: int)
    requires NAD <= z < 2 * NAD
    ensures 0 <= Tanh(z) <= NAD
    ensures 2 * Tanh(z) + 2 * Times(Tanh(z), Tanh(z)) <= z - NAD
  {
    TanhMono(z, z);
    TanhBelowThird(z);
    FloorSpec((z - NAD) * NAD, z + NAD);
    FloorSpec(Tanh(z) * Tanh(z), NAD);
    MulMono(0, Tanh(z), 0, Tanh(z));
    SquareFits(z - NAD, Tanh(z), Times(Tanh(z), Tanh(z)));
  }

  lemma SquareFits(d: int, v: int, v2: int)
    requires 0 <= d && 0 <= v && v * (d + 2 * NAD) <= d * NAD
    requires v2 * NAD <= v * v
    ensures 2 * v + 2 * v2 <= d
  {
    Distribute(d, 2 * NAD, v);
    MulMono(0, v, 0, d);
    assert 2 * v <= d;
    MulMono(v, v, 2 * v, d);
  }

  /** All terms past the first add up to at most v^2. */
  lemma TailBelowSquare(v: int)
    requires 0 <= v <= NAD
    ensures Series(v) <= v + Times(v, v)
  {
    TimesShrinks(v, v);
    var v2 := Times(v, v);
    TimesShrinks(v2, v);
    var v3 := Times(v2, v);
    TimesShrinks(v3, v2);
    var v5 := Times(v3, v2);
    TimesShrinks(v5, v2);
    var v7 := Times(v5, v2);
    TimesShrinks(v7, v2);
  }

  /** The first term alone is within two units of 1 - 1 / z. */
  lemma SeriesAboveConcave(z: int)
    requires NAD <= z < 2 * NAD
    ensures (z - NAD) * NAD <= (2 * Series(Tanh(z)) + 2) * z
  {
    TanhMono(z, z);
    SeriesMono(Tanh(z), Tanh(z));
    TanhAbove(z);
    MulMono(2 * Tanh(z) + 2, 2 * Series(Tanh(z)) + 2, z, z);
  }

  lemma TanhAbove(z: int)
    requires NAD <= z < 2 * NAD
    ensures (z - NAD) * NAD <= (2 * Tanh(z) + 2) * z
  {
    TanhMono(z, z);
    FloorSpec((z - NAD) * NAD, z + NAD);
    WithinTwoUnits((z - NAD) * NAD, z + NAD, z, Tanh(z));
  }

  lemma WithinTwoUnits(n: int, s: nat, z: nat, v: nat)
    requires s <= 2 * z && n < (v + 1) * s
    ensures n <= (2 * v + 2) * z
  {
    MulMono(v + 1, v + 1, s, 2 * z);
    Associate(2, v + 1, z);
    Associate(v + 1, 2, z);
  }

  // ---------------------------------------------------------------- the logarithm

  lemma {:induction false} ScaleDownShift(z: int, k: int)
    requires z >= NAD / 2
    ensures ScaleDown(z, k).0 == ScaleDown(z, 0).0
    ensures ScaleDown(z, k).1 == ScaleDown(z, 0).1 + k
    decreases z
  {
    if z >= 2 * NAD {
      ScaleDownShift(z / 2, k + 1);
      ScaleDownShift(z / 2, 1);
    }
  }

  /** From one up: the series below two, and one ln 2 per halving from two up. */
  lemma LnUnfold(x: int)
    requires x >= NAD
    ensures x < 2 * NAD ==> LnNad(x) == 2 * Series(Tanh(x))
    ensures x >= 2 * NAD ==> LnNad(x) == LnNad(x / 2) + LN2_NAD
  {
    if x >= 2 * NAD {
      ScaleDownShift(x / 2, 1);
    }
  }

  lemma {:induction false} LnNonNegative(x: int)
    requires x >= NAD
    ensures LnNad(x) >= 0
    decreases x
  {
    LnUnfold(x);
    if x < 2 * NAD {
      TanhMono(x, x);
      SeriesMono(Tanh(x), Tanh(x));
    } else {
      LnNonNegative(x / 2);
    }
  }

  lemma {:induction false} LnMono(x: int, y: int)
    requires NAD <= x <= y
    ensures LnNad(x) <= LnNad(y)
    decreases y
  {
    LnUnfold(x);
    LnUnfold(y);
    if y < 2 * NAD {
      TanhMono(x, y);
      SeriesMono(Tanh(x), Tanh(y));
    } else if x < 2 * NAD {
      SeriesBelowLn2(x);
      LnNonNegative(y / 2);
    } else {
      LnMono(x / 2, y / 2);
    }
  }

  /** ln(x) <= x - 1. */
  lemma {:induction false} LnBelowLinear(x: int)
    requires x >= NAD
    ensures LnNad(x) <= x - NAD
    decreases x
  {
    LnUnfold(x);
    if x < 2 * NAD {
      SeriesBelowLinear(x);
    } else {
      LnBelowLinear(x / 2);
    }
  }

  /** ln(x) >= 1 - 1 / x, up to two units. */
  lemma {:induction false} LnAboveConcave(x: int)
    requires x >= NAD
    ensures (x - NAD) * NAD <= (LnNad(x) + 2) * x
    decreases x
  {
    LnUnfold(x);
    if x < 2 * NAD {
      SeriesAboveConcave(x);
    } else {
      LnAboveConcave(x / 2);
      LnNonNegative(x / 2);
      HalvingStep(x, x / 2, LnNad(x / 2) + 2);
    }
  }

  lemma HalvingStep(x: int, h: int, l: int)
    requires h >= NAD && 2 * h <= x <= 2 * h + 1 && l >= 0
    requires (h - NAD) * NAD <= l * h
    ensures (x - NAD) * NAD <= (l + LN2_NAD) * x
  {
    // l >= NAD - NAD^2 / h; scale the claim by h
    MulMono((h - NAD) * NAD, l * h, x, x);
    assert (l * h) * x == (l * x) * h;
    assert ((x - NAD) * NAD) * h <= ((l + LN2_NAD) * x) * h by {
      Distribute(l, LN2_NAD, x);
      Distribute(l * x, LN2_NAD * x, h);
      HalvingSlack(x, h);
    }
    CancelLe((x - NAD) * NAD, (l + LN2_NAD) * x, h);
  }

  lemma HalvingSlack(x: int, h: int)
    requires h >= NAD && 2 * h <= x <= 2 * h + 1
    ensures ((x - NAD) * NAD) * h <= ((h - NAD) * NAD) * x + (LN2_NAD * x) * h
  {
    // the two left products differ by NAD^2 * (x - h)
    DistributeMinus(x, NAD, h);
    DistributeMinus(h, NAD, x);
    assert ((x - NAD) * NAD) * h - ((h - NAD) * NAD) * x == NAD * NAD * (x - h);
    MulMono(NAD, h, x, x);
    assert (LN2_NAD * x) * h >= LN2_NAD * NAD * x;
  }

  // ---------------------------------------------------------------- the scale

  lemma {:induction false} ScaleUpShift(z: int, k: int)
    requires z > 0
    ensures ScaleUp(z, k).0 == ScaleUp(z, 0).0 && ScaleUp(z, k).1 == ScaleUp(z, 0).1 + k
    decreases NAD / 2 - z
  {
    if z < NAD / 2 {
      ScaleUpShift(2 * z, k - 1);
      ScaleUpShift(2 * z, -1);
    }
  }

  /** Doubling adds ln 2 = 0.693147180 exactly, above one and below one half. */
  lemma DoublingAddsLn2(x: int)
    requires x >= 1_000_000_000 || 0 < 2 * x < 1_000_000_000
    ensures LnNad(2 * x) == LnNad(x) + 693_147_180
  {
    if x >= 1_000_000_000 {
      LnUnfold(2 * x);
    } else {
      ScaleUpShift(2 * x, -1);
    }
  }

  /** Five logarithms to the unit; at one half the five terms leave 1136 units. */
  lemma LnTable()
    ensures LnNad(1_000_000_000) == 0
    ensures LnNad(1_500_000_000) == 405_465_100
    ensures LnNad(600_000_000) == -510_825_574
    ensures LnNad(500_000_000) == -693_146_044
    ensures LnNad(10_000_000_000) == 2_302_585_088
  {
    TableRow(1_000_000_000, 0, 0, 0, 0, 0, 0);
    TableRow(1_500_000_000, 200_000_000, 40_000_000, 8_000_000, 320_000, 12_800, 512);
    TableRow(600_000_000, -250_000_000, 62_500_000, -15_625_000, -976_562, -61_035, -3_814);
    TableRow(500_000_000, -333_333_333, 111_111_110, -37_037_036, -4_115_226, -457_247, -50_805);
    TableRow(1_250_000_000, 111_111_111, 12_345_678, 1_371_741, 16_935, 209, 2);
    DoublingAddsLn2(1_250_000_000);
    DoublingAddsLn2(2_500_000_000);
    DoublingAddsLn2(5_000_000_000);
  }

  /** One logarithm from the powers of its argument. */
  lemma TableRow(x: int, v: int, v2: int, v3: int, v5: int, v7: int, v9: int)
    requires NAD / 2 <= x < 2 * NAD && Tanh(x) == v
    requires Times(v, v) == v2 && Times(v2, v) == v3
    requires Times(v3, v2) == v5 && Times(v5, v2) == v7 && Times(v7, v2) == v9
    ensures LnNad(x) == 2 * (v + TruncDiv(v3, 3) + TruncDiv(v5, 5) + TruncDiv(v7, 7) + TruncDiv(v9, 9))
  {
  }
}
