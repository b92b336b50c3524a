/** What the moving average guarantees: it never leaves the interval between its last value
    and the observed one, it is defined on every realistic window, and it only gets closer
    to the observation as time passes. */
module Average {
  import opened Words
  import opened Nonlinear
  import opened Kernels
  import Exponential

  lemma EmaStaysInHull(last: u64, lastUpdate: u64, input: u64, halfLife: u64, slot: u64)
    ensures var ema := ComputeEma(last, lastUpdate, input, halfLife, slot);
      ema.Ok? ==> Min(last, input) <= ema.value <= Max(last, input)
  {
    var dt := SlotsToMs(lastUpdate, slot);
    if dt.Some? && dt.value > 0 && halfLife > 0 {
      var alpha := Decay(DecayExponent(dt.value, halfLife));
      if alpha.Ok? && alpha.value <= NAD {
        BlendBounds(last, input, alpha.value);
      }
    }
  }

  /** A window whose exponent survives the cast to i64. */
  ghost predicate Representable(lastUpdate: u64, halfLife: u64, slot: u64) {
    && SlotsToMs(lastUpdate, slot).Some?
    && (halfLife > 0 ==> DecayExponent(SlotsToMs(lastUpdate, slot).value, halfLife) < -I64_MIN)
  }

  lemma EmaIsDefined(last: u64, lastUpdate: u64, input: u64, halfLife: u64, slot: u64)
    requires Representable(lastUpdate, halfLife, slot)
    ensures ComputeEma(last, lastUpdate, input, halfLife, slot).Ok?
  {
    var dt := SlotsToMs(lastUpdate, slot).value;
    if dt > 0 && halfLife > 0 {
      Exponential.DecayBounds(DecayExponent(dt, halfLife));
    }
  }

  /** More weight on the observation moves the blend towards it. */
  lemma BlendMoves(last: u64, input: u64, a: u64, b: u64)
    requires b <= a <= NAD
    ensures last <= input ==> Blend(last, input, a) <= Blend(last, input, b)
    ensures input <= last ==> Blend(last, input, b) <= Blend(last, input, a)
  {
    var na, nb := input * (NAD - a) + last * a, input * (NAD - b) + last * b;
    assert nb - na == (input - last) * (a - b) by {
      Distribute(NAD - a, a - b, input);
      Distribute(b, a - b, last);
      DistributeMinus(input, last, a - b);
    }
    if last <= input {
      MulMono(0, input - last, 0, a - b);
      FloorMono(na, nb, NAD);
    }
    if input <= last {
      MulMono(0, last - input, 0, a - b);
      FloorMono(nb, na, NAD);
    }
  }

  /** Observing the same price later never leaves the average further from it. */
  lemma EmaApproachesObservation(last: u64, lastUpdate: u64, input: u64, halfLife: u64, slot: u64, later: u64)
    requires slot <= later && halfLife > 0
    requires Representable(lastUpdate, halfLife, slot) && Representable(lastUpdate, halfLife, later)
    ensures var ema := ComputeEma(last, lastUpdate, input, halfLife, slot);
      var next := ComputeEma(last, lastUpdate, input, halfLife, later);
      && ema.Ok? && next.Ok?
      && (last <= input ==> ema.value <= next.value <= input)
      && (input <= last ==> input <= next.value <= ema.value)
  {
    EmaIsDefined(last, lastUpdate, input, halfLife, slot);
    EmaIsDefined(last, lastUpdate, input, halfLife, later);
    EmaStaysInHull(last, lastUpdate, input, halfLife, slot);
    EmaStaysInHull(last, lastUpdate, input, halfLife, later);
    var dt, dt' := SlotsToMs(lastUpdate, slot).value, SlotsToMs(lastUpdate, later).value;
    if dt > 0 {
      FloorMono(dt * LN2_NAD, dt' * LN2_NAD, halfLife);
      var x, x' := DecayExponent(dt, halfLife), DecayExponent(dt', halfLife);
      Exponential.DecayAntitone(x, x');
      Exponential.DecayBounds(x);
      BlendMoves(last, input, Decay(x).value, Decay(x').value);
    }
  }

  /** How far an average moves over a window of exponent x: at most the first order of x of the
      distance, and at least all but the rational bound of it, up to one unit of rounding. */
  predicate Moves(last: int, input: int, ema: int, x: int) {
    var kept := NAD + 10 * (x / 10);
    if last <= input then
      (ema - last) * NAD <= (input - last) * x && (input - ema - 1) * kept <= (input - last) * NAD
    else
      (last - ema) * NAD <= (last - input) * x + NAD && (ema - input) * kept <= (last - input) * NAD
  }

  lemma EmaMoves(last: u64, lastUpdate: u64, input: u64, halfLife: u64, slot: u64)
    requires Representable(lastUpdate, halfLife, slot) && slot > lastUpdate && halfLife > 0
    ensures ComputeEma(last, lastUpdate, input, halfLife, slot).Ok?
    ensures var dt := SlotsToMs(lastUpdate, slot).value;
      Moves(last, input, ComputeEma(last, lastUpdate, input, halfLife, slot).value, DecayExponent(dt, halfLife))
  {
    var x := DecayExponent(SlotsToMs(lastUpdate, slot).value, halfLife);
    Exponential.DecayBounds(x);
    var a := Decay(x).value;
    BlendBounds(last, input, a);
    if last <= input {
      UpwardBlend(last, input, a, x);
    } else {
      DownwardBlend(last, input, a, x);
    }
  }

  lemma UpwardBlend(last: u64, input: u64, a: u64, x: nat)
    requires last <= input && a <= NAD && NAD - x <= a && a * (NAD + 10 * (x / 10)) <= NAD * NAD
    ensures Moves(last, input, Blend(last, input, a), x)
  {
    var d, ema, kept := input - last, Blend(last, input, a), NAD + 10 * (x / 10);
    Distribute(last, d, NAD - a);
    Distribute(NAD - a, a, last);
    assert input * (NAD - a) + last * a == last * NAD + d * (NAD - a);
    MulMono(d, d, NAD - a, x);
    DistributeMinus(NAD, a, d);
    assert (input - ema - 1) * NAD <= d * a;
    KeptPart(input - ema - 1, d, a, kept);
  }

  lemma DownwardBlend(last: u64, input: u64, a: u64, x: nat)
    requires input <= last && a <= NAD && NAD - x <= a && a * (NAD + 10 * (x / 10)) <= NAD * NAD
    ensures (last - Blend(last, input, a)) * NAD <= (last - input) * x + NAD
    ensures (Blend(last, input, a) - input) * (NAD + 10 * (x / 10)) <= (last - input) * NAD
  {
    var d, ema, kept := last - input, Blend(last, input, a), NAD + 10 * (x / 10);
    Distribute(input, d, a);
    Distribute(NAD - a, a, input);
    assert input * (NAD - a) + last * a == input * NAD + d * a;
    DistributeMinus(NAD, a, d);
    MulMono(d, d, NAD - a, x);
    assert (ema - input) * NAD <= d * a;
    KeptPart(ema - input, d, a, kept);
  }

  lemma KeptPart(part: int, d: nat, a: nat, kept: nat)
    requires part * NAD <= d * a && a * kept <= NAD * NAD && kept > 0
    ensures part * kept <= d * NAD
  {
    MulMono(0, d, 0, a);
    if part > 0 {
      MulMono(part * NAD, d * a, kept, kept);
      MulMono(d, d, a * kept, NAD * NAD);
      Associate(part, NAD, kept);
      Associate(d, a, kept);
      CancelLe(part * kept, d * NAD, NAD);
    } else {
      MulMono(0, -part, 0, kept);
      DistributeMinus(0, -part, kept);
    }
  }

  // ---------------------------------------------------------------- beyond the cast

  /** Past an exponent of 2^63 the cast wraps and time can run backwards: at a half-life of one
      minute an average that starts at zero and has moved at least two fifths of the way to one
      after a minute is back within half a percent of zero fifty thousand years later. */
  lemma EmaCanTurnBack()
    ensures var early := ComputeEma(0, 0, NAD, 60_000, 150);
      early.Ok? && early.value >= 400_000_000
    ensures var late := ComputeEma(0, 0, NAD, 60_000, 3_991_953_932_579);
      late.Ok? && late.value <= 5_000_000
  {
    EarlyWeight(693_147_180);
    WrappedWeight(18_446_744_073_713_626_514);
    EmaFromWeight(150, 60_000, 693_147_180);
    EmaFromWeight(3_991_953_932_579, 1_596_781_573_031_600, 18_446_744_073_713_626_514);
  }

  lemma EarlyWeight(x: u128)
    requires x == 693_147_180
    ensures Decay(x).Ok? && Decay(x).value <= 600_000_000
  {
    Exponential.DecayBounds(x);
    var alpha := Decay(x).value;
    if alpha > 600_000_000 {
      MulMono(600_000_000, alpha, NAD + 10 * (x / 10), NAD + 10 * (x / 10));
    }
  }

  /** 2^64 + 4,074,898 becomes 4,074,898. */
  lemma WrappedWeight(x: u128)
    requires x == 18_446_744_073_713_626_514
    ensures Decay(x).Ok? && NAD - 4_074_898 <= Decay(x).value <= NAD
  {
    assert AsI64(x) == 4_074_898;
    Exponential.TaylorExpBounds(4_074_898);
  }

  /** An average of one observed from zero, by the weight left on the zero. */
  lemma EmaFromWeight(slot: u64, dt: u64, x: u128)
    requires slot * TARGET_MS_PER_SLOT == dt > 0 && dt * LN2_NAD / 60_000 == x
    requires Decay(x).Ok? && Decay(x).value <= NAD
    ensures ComputeEma(0, 0, NAD, 60_000, slot) == Ok(NAD - Decay(x).value)
  {
    var alpha := Decay(x).value;
    assert SlotsToMs(0, slot) == Some(dt) && DecayExponent(dt, 60_000) == x;
    assert NAD * (NAD - alpha) / NAD == NAD - alpha;
    assert Blend(0, NAD, alpha) == NAD - alpha;
  }
}
