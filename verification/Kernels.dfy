/** The numeric kernels of utils/math.rs: ceiling division, Newton square root,
    range-reduced Taylor exponential and the exponential moving average. */
module Kernels {
  import opened Words
  import opened Nonlinear

  function CeilDiv(a: u128, b: u128): Option<u128> {
    if b == 0 then None
    else match CheckedAdd(a, b - 1)
      case None => None
      case Some(n) => CheckedDiv(n, b)
  }

  /** Away from overflow CeilDiv is the mathematical ceiling. */
  lemma CeilDivIsCeil(a: u128, b: u128)
    requires b > 0 && a + b - 1 <= U128_MAX
    ensures CeilDiv(a, b) == Some(Ceil(a, b))
  {
  }

  // ---------------------------------------------------------------- square root

  ghost predicate IsSqrt(z: int, y: int) {
    0 <= z && z * z <= y < (z + 1) * (z + 1)
  }

  /** The integer square root by its definition, one unit at a time. */
  function ISqrt(y: nat): (z: nat)
    ensures IsSqrt(z, y)
  {
    if y == 0 then 0
    else
      var z := ISqrt(y - 1);
      if (z + 1) * (z + 1) <= y then z + 1 else z
  }

  lemma SqrtIsUnique(z: int, y: nat)
    requires IsSqrt(z, y)
    ensures z == ISqrt(y)
  {
    var w := ISqrt(y);
    SquareLt(z, w + 1);
    SquareLt(w, z + 1);
  }

  lemma ISqrtMono(a: nat, b: nat)
    requires a <= b
    ensures ISqrt(a) <= ISqrt(b)
  {
    SquareLt(ISqrt(a), ISqrt(b) + 1);
  }

  /** A Newton step never falls below the root: the mean of z and y / z is at least it. */
  lemma NewtonStaysAbove(y: nat, z: int)
    requires z > 0
    ensures ((y / z + z) / 2 + 1) * ((y / z + z) / 2 + 1) > y
  {
    var q := y / z;
    var x := (q + z) / 2;
    FloorSpec(y, z);
    FloorAtLeast(0, y, z);
    assert y < (q + 1) * z;
    MeanInequality(q + 1, z);
    MulMono(q + 1 + z, 2 * (x + 1), q + 1 + z, 2 * (x + 1));
    DoubleSquare(x + 1);
  }

  lemma MeanInequality(a: int, b: int)
    ensures 4 * (a * b) <= (a + b) * (a + b)
  {
    assert (a + b) * (a + b) - 4 * (a * b) == (a - b) * (a - b);
  }

  lemma DoubleSquare(a: int)
    ensures (2 * a) * (2 * a) == 4 * (a * a)
  {
  }

  /** The Newton iteration of the program, every checked operation included. It always
      terminates with a value, and that value is the exact integer square root. */
  method Sqrt(y: u128) returns (r: Option<u128>)
    ensures r == Some(ISqrt(y))
  {
    if y > 3 {
      var z: u128 := y;
      var half := CheckedDiv(y, 2);
      if half.None? { return None; }
      var first := CheckedAdd(half.value, 1);
      if first.None? { return None; }
      var x: u128 := first.value;
      assert (x + 1) * (x + 1) > y by { FirstGuessIsAbove(y); }
      while x < z
        invariant 2 <= x <= y / 2 + 1 && 0 < z <= y
        invariant (x + 1) * (x + 1) > y && (z + 1) * (z + 1) > y
        invariant x < z || x == (y / z + z) / 2
        decreases z
      {
        z := x;
        NewtonStaysAbove(y, x);
        StepStaysInRange(y, x);
        var quotient := CheckedDiv(y, x);
        if quotient.None? { return None; }
        var total := CheckedAdd(quotient.value, x);
        if total.None? { return None; }
        var next := CheckedDiv(total.value, 2);
        if next.None? { return None; }
        x := next.value;
      }
      assert z * z <= y by {
        assert z <= y / z;
        FloorAtLeast(z, y, z);
      }
      SqrtIsUnique(z, y);
      return Some(z);
    } else if y != 0 {
      SqrtIsUnique(1, y);
      return Some(1);
    } else {
      return Some(0);
    }
  }

  lemma FirstGuessIsAbove(y: int)
    requires y > 3
    ensures (y / 2 + 2) * (y / 2 + 2) > y
  {
    var h := y / 2;
    assert (h + 2) * (h + 2) == h * h + 4 * h + 4;
    assert h * h >= 0;
  }

  lemma StepStaysInRange(y: u128, x: int)
    requires y > 3 && 2 <= x <= y / 2 + 1
    requires (x + 1) * (x + 1) > y
    ensures 0 <= y / x && y / x + x <= U128_MAX
    ensures 2 <= (y / x + x) / 2 <= y / 2 + 1
  {
    FloorAntitone(y, 2, x);
    if x == 2 {
    } else if x == 3 {
    } else {
      FloorAtLeast(0, y, x);
    }
  }

  // ---------------------------------------------------------------- exponential

  /** The i-th Taylor term in fixed point, zero from the first overflow on. */
  function Term(i: nat, r: u128, scale: u64): u128
    requires i <= U64_MAX
  {
    if i == 0 then scale
    else match CheckedMul(Term(i - 1, r, scale), r)
      case None => 0
      case Some(t) =>
        MulMono(i, U64_MAX, scale, U64_MAX);
        match CheckedDiv(t, i * scale)
        case None => 0
        case Some(q) => q
  }

  /** The Taylor sum up to the i-th term, saturated on overflow. */
  function Sum(i: nat, r: u128, scale: u64): u128
    requires i <= U64_MAX
  {
    if i == 0 then scale
    else match CheckedAdd(Sum(i - 1, r, scale), Term(i, r, scale))
      case None => U128_MAX
      case Some(s) => s
  }

  /** The j-th power of sum / scale in fixed point, saturated on overflow. */
  function Power(j: nat, sum: u128, scale: u64): u128 {
    if j == 0 then scale
    else match CheckedMul(Power(j - 1, sum, scale), sum)
      case None => U128_MAX
      case Some(p) =>
        match CheckedDiv(p, scale)
        case None => U128_MAX
        case Some(q) => q
  }

  /** exp(x / scale) in fixed point: a tenth of |x| through the series, then the tenth
      power, then the reciprocal when x is negative. */
  function TaylorExp(x: i64, scale: u64, precision: u64): Result<u64> {
    if x == I64_MIN then Err(Panic)
    else
      var magnitude := if x < 0 then -x else x;
      var power := Power(10, Sum(precision, magnitude / 10, scale), scale);
      if x >= 0 then Ok(AsU64(power))
      else if power == 0 then Err(Panic)
      else
        MulMono(scale, U64_MAX, scale, U64_MAX);
        FloorAntitone(scale * scale, 1, power);
        Ok(AsU64(scale * scale / power))
  }

  method ComputeTaylorExp(x: i64, scale: u64, precision: u64) returns (r: Result<u64>)
    ensures r == TaylorExp(x, scale, precision)
  {
    if x == I64_MIN { return Err(Panic); }
    var isNegative := x < 0;
    var absX: i64 := if isNegative then -x else x;
    var n := 10;
    var reducedX: u128 := absX / n;
    var term: u128 := scale;
    var sum: u128 := scale;
    for i := 1 to precision + 1
      invariant term == Term(i - 1, reducedX, scale)
      invariant sum == Sum(i - 1, reducedX, scale)
    {
      MulMono(i, U64_MAX, scale, U64_MAX);
      var product := CheckedMul(term, reducedX);
      var quotient := match product case None => None case Some(t) => CheckedDiv(t, i * scale);
      term := match quotient case None => 0 case Some(q) => q;
      var total := CheckedAdd(sum, term);
      sum := match total case None => U128_MAX case Some(s) => s;
    }
    var result: u128 := scale;
    for j := 0 to n
      invariant result == Power(j, sum, scale)
    {
      var product := CheckedMul(result, sum);
      var quotient := match product case None => None case Some(p) => CheckedDiv(p, scale);
      result := match quotient case None => U128_MAX case Some(q) => q;
    }
    if isNegative {
      if result == 0 { return Err(Panic); }
      MulMono(scale, U64_MAX, scale, U64_MAX);
      FloorAntitone(scale * scale, 1, result);
      result := scale * scale / result;
    }
    return Ok(AsU64(result));
  }

  // ---------------------------------------------------------------- moving average

  function SlotsToMs(startSlot: u64, endSlot: u64): Option<u64> {
    match CheckedSub64(endSlot, startSlot)
    case None => None
    case Some(slots) => ToU64(slots * TARGET_MS_PER_SLOT)
  }

  /** The exponent handed to the exponential, scaled by NAD. */
  function DecayExponent(dt: u64, halfLife: u64): u128
    requires halfLife > 0
  {
    FloorAntitone(dt * LN2_NAD, 1, halfLife);
    dt * LN2_NAD / halfLife
  }

  /** e^(-x / NAD) as the program computes it from an unsigned exponent: the cast to i64
      may wrap, and negating the least i64 panics. */
  function Decay(x: u128): Result<u64> {
    var signed := AsI64(x);
    if signed == I64_MIN then Err(Panic)
    else TaylorExp(-signed, NAD, TAYLOR_TERMS)
  }

  /** The average of input and last with weight alpha / NAD on last, rounded down. */
  function Blend(last: u64, input: u64, alpha: u64): u64
    requires alpha <= NAD
  {
    BlendBounds(last, input, alpha);
    (input * (NAD - alpha) + last * alpha) / NAD
  }

  lemma BlendBounds(last: u64, input: u64, alpha: u64)
    requires alpha <= NAD
    ensures Min(last, input) <= (input * (NAD - alpha) + last * alpha) / NAD <= Max(last, input)
  {
    var low, high := Min(last, input), Max(last, input);
    MulMono(low, input, NAD - alpha, NAD - alpha);
    MulMono(low, last, alpha, alpha);
    MulMono(input, high, NAD - alpha, NAD - alpha);
    MulMono(last, high, alpha, alpha);
    assert low * (NAD - alpha) + low * alpha == low * NAD;
    assert high * (NAD - alpha) + high * alpha == high * NAD;
  }

  function ComputeEma(last: u64, lastUpdate: u64, input: u64, halfLife: u64, slot: u64): Result<u64> {
    var dt :- OkOr(SlotsToMs(lastUpdate, slot), Panic);
    if dt > 0 && halfLife > 0 then
      var alpha :- Decay(DecayExponent(dt, halfLife));
      var _ :- Require(alpha <= NAD, Panic);
      Ok(Blend(last, input, alpha))
    else
      Ok(last)
  }
}
