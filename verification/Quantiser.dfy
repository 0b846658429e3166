/**
 * Affine integer quantisation, over real numbers where the program uses 32-bit floats,
 * for the three types stored as integers with a scale.
 *
 * Values are counted in steps of the scale. What goes wrong when zero lies outside the
 * range is that the zero point is clamped: codes then stand for values that are off by
 * the distance between zero and the range.
 */
module Quantiser {
  datatype QuantType = Q4 | Q8 | U8 {
    function Min(): int {
      if Q8? then -128 else 0
    }

    function Max(): int {
      match this
      case Q4 => 15
      case Q8 => 127
      case U8 => 255
    }
  }

  datatype Params = Params(quantType: QuantType, scale: real, zeroPoint: int, lo: real, hi: real)

  const EPSILON := 1.0 / 8388608.0

  // Rounds to the nearest integer, ties away from zero.
  function Round(x: real): int {
    if x >= 0.0 then (x + 0.5).Floor else -((-x + 0.5).Floor)
  }

  function ClampInt(x: int, lo: int, hi: int): int {
    if x < lo then lo else if x > hi then hi else x
  }

  function ClampReal(x: real, lo: real, hi: real): real {
    if x < lo then lo else if x > hi then hi else x
  }

  function Abs(x: real): real {
    if x < 0.0 then -x else x
  }

  function InSteps(v: real, scale: real): real
    requires scale != 0.0
  {
    v / scale
  }

  function OfSteps(x: real, scale: real): real {
    x * scale
  }

  function FromRange(t: QuantType, min: real, max: real): Params {
    var (lo, hi) := if Abs(max - min) < EPSILON then (min - 1.0, min + 1.0) else (min, max);
    var scale := (hi - lo) / (t.Max() - t.Min()) as real;
    var zero := if scale == 0.0 then 0 else StepZero(t, InSteps(lo, scale));
    Params(t, scale, zero, lo, hi)
  }

  // The zero point for a range that starts l steps from zero.
  function StepZero(t: QuantType, l: real): int {
    ClampInt(Round(t.Min() as real - l), t.Min(), t.Max())
  }

  function Quantize(p: Params, value: real): int
    requires p.scale != 0.0
  {
    var clamped := ClampReal(value, p.lo, p.hi);
    ClampInt(Round(InSteps(clamped, p.scale)) + p.zeroPoint, p.quantType.Min(), p.quantType.Max())
  }

  function Dequantize(p: Params, q: int): real {
    OfSteps((q - p.zeroPoint) as real, p.scale)
  }

  // Parameters made from a range that is not upside down.
  ghost predicate Made(p: Params) {
    exists min, max :: (min <= max || Abs(max - min) < EPSILON) && p == FromRange(p.quantType, min, max)
  }

  // The range counted in steps: l at the bottom, h at the top.
  ghost predicate Scaled(p: Params, l: real, h: real) {
    && p.scale > 0.0 && p.lo == OfSteps(l, p.scale) && p.hi == OfSteps(h, p.scale)
    && Spans(p.quantType, l, h) && p.zeroPoint == StepZero(p.quantType, l)
  }

  ghost predicate Spans(t: QuantType, l: real, h: real) {
    h == l + (t.Max() - t.Min()) as real
  }

  // The code of a value of x steps.
  function StepCode(t: QuantType, l: real, h: real, x: real): int {
    ClampInt(Round(ClampReal(x, l, h)) + StepZero(t, l), t.Min(), t.Max())
  }

  // What is lost on x, in steps.
  function StepError(t: QuantType, l: real, h: real, x: real): real {
    (StepCode(t, l, h, x) - StepZero(t, l)) as real - ClampReal(x, l, h)
  }

  // Counting in steps and back.
  lemma StepsInverse(x: real, s: real)
    requires s > 0.0
    ensures InSteps(OfSteps(x, s), s) == x && OfSteps(InSteps(x, s), s) == x
  {
  }

  lemma StepsOrder(a: real, b: real, s: real)
    requires s > 0.0
    ensures a <= b <==> OfSteps(a, s) <= OfSteps(b, s)
  {
    assert (b - a) * s == b * s - a * s;
  }

  lemma StepsSum(a: real, b: real, s: real)
    ensures OfSteps(a + b, s) == OfSteps(a, s) + OfSteps(b, s)
  {
  }

  lemma StepsClamp(x: real, l: real, h: real, s: real)
    requires s > 0.0
    ensures ClampReal(OfSteps(x, s), OfSteps(l, s), OfSteps(h, s)) == OfSteps(ClampReal(x, l, h), s)
  {
    StepsOrder(l, x, s);
    StepsOrder(x, h, s);
  }

  lemma MadeScale(t: QuantType, lo: real, hi: real, scale: real)
    requires lo < hi && scale == (hi - lo) / (t.Max() - t.Min()) as real
    ensures scale > 0.0 && hi == lo + OfSteps((t.Max() - t.Min()) as real, scale)
  {
    StepsInverse(hi - lo, (t.Max() - t.Min()) as real);
  }

  lemma MadeScaled(p: Params) returns (l: real, h: real)
    requires Made(p)
    ensures Scaled(p, l, h)
  {
    MadeScale(p.quantType, p.lo, p.hi, p.scale);
    l := InSteps(p.lo, p.scale);
    h := l + (p.quantType.Max() - p.quantType.Min()) as real;
    StepsInverse(p.lo, p.scale);
    StepsSum(l, (p.quantType.Max() - p.quantType.Min()) as real, p.scale);
  }

  lemma RoundNear(x: real)
    ensures -0.5 <= Round(x) as real - x <= 0.5
    ensures x >= 0.0 ==> Round(x) as real - x > -0.5
    ensures x <= 0.0 ==> Round(x) as real - x < 0.5
  {
  }

  lemma RoundMonotone(x: real, y: real)
    requires x <= y
    ensures Round(x) <= Round(y)
  {
  }

  lemma RoundUnique(x: real, k: int)
    requires -0.5 < k as real - x < 0.5
    ensures Round(x) == k
  {
    RoundNear(x);
  }

  // Quantising a value of x steps.
  lemma QuantizeSteps(p: Params, l: real, h: real, x: real)
    requires Scaled(p, l, h)
    ensures Quantize(p, OfSteps(x, p.scale)) == StepCode(p.quantType, l, h, x)
  {
    StepsClamp(x, l, h, p.scale);
    StepsInverse(ClampReal(x, l, h), p.scale);
  }

  // Values fall in the order of their codes.
  lemma QuantizeMonotone(p: Params, v: real, w: real)
    requires Made(p) && v <= w
    ensures p.scale > 0.0 && Quantize(p, v) <= Quantize(p, w)
  {
    var l, h := MadeScaled(p);
    var x, y := InSteps(v, p.scale), InSteps(w, p.scale);
    StepsInverse(v, p.scale);
    StepsInverse(w, p.scale);
    StepsOrder(x, y, p.scale);
    QuantizeSteps(p, l, h, x);
    QuantizeSteps(p, l, h, y);
    RoundMonotone(ClampReal(x, l, h), ClampReal(y, l, h));
  }

  ghost predicate HalfStep(p: Params, v: real)
    requires p.scale != 0.0
  {
    Abs(Dequantize(p, Quantize(p, v)) - ClampReal(v, p.lo, p.hi)) <= OfSteps(0.5, p.scale)
  }

  lemma AbsSteps(q: real, c: real, s: real)
    requires s > 0.0
    ensures Abs(OfSteps(q, s) - OfSteps(c, s)) <= OfSteps(0.5, s) <==> Abs(q - c) <= 0.5
  {
    StepsOrder(q - c, 0.5, s);
    StepsOrder(c - q, 0.5, s);
    StepsSum(q, -c, s);
    StepsSum(c, -q, s);
  }

  lemma HalfStepSteps(p: Params, l: real, h: real, x: real)
    requires Scaled(p, l, h)
    ensures HalfStep(p, OfSteps(x, p.scale)) <==> Abs(StepError(p.quantType, l, h, x)) <= 0.5
  {
    QuantizeSteps(p, l, h, x);
    StepsClamp(x, l, h, p.scale);
    AbsSteps((StepCode(p.quantType, l, h, x) - p.zeroPoint) as real, ClampReal(x, l, h), p.scale);
  }

  // Zero lies in the range or at most half a step outside it.
  predicate NearZero(p: Params) {
    p.lo <= OfSteps(0.5, p.scale) && OfSteps(-0.5, p.scale) <= p.hi
  }

  // Zero lies in the range or strictly less than half a step outside it.
  predicate WellNearZero(p: Params) {
    p.lo < OfSteps(0.5, p.scale) && OfSteps(-0.5, p.scale) < p.hi
  }

  lemma NearSteps(p: Params, l: real, h: real)
    requires Scaled(p, l, h)
    ensures NearZero(p) <==> l <= 0.5 && h >= -0.5
    ensures WellNearZero(p) <==> l < 0.5 && h > -0.5
  {
    StepsOrder(l, 0.5, p.scale);
    StepsOrder(0.5, l, p.scale);
    StepsOrder(-0.5, h, p.scale);
    StepsOrder(h, -0.5, p.scale);
  }

  // A range near zero puts its zero point within half a step of where it belongs.
  lemma ZeroPlaced(t: QuantType, l: real, h: real)
    requires Spans(t, l, h) && l <= 0.5 && h >= -0.5
    ensures -0.5 <= StepZero(t, l) as real - t.Min() as real + l <= 0.5
  {
    RoundNear(t.Min() as real - l);
  }

  lemma SmallError(t: QuantType, l: real, h: real, x: real)
    requires Spans(t, l, h) && l <= 0.5 && h >= -0.5
    ensures Abs(StepError(t, l, h, x)) <= 0.5
  {
    ZeroPlaced(t, l, h);
    RoundNear(ClampReal(x, l, h));
  }

  // A range away from zero misses by more than half a step at its far end.
  lemma LargeError(t: QuantType, l: real, h: real)
    requires Spans(t, l, h) && (l > 0.5 || h < -0.5)
    ensures Abs(StepError(t, l, h, if l > 0.5 then h else l)) > 0.5
  {
    RoundNear(t.Min() as real - l);
    RoundNear(if l > 0.5 then h else l);
  }

  // The half-step bound holds for every value exactly when zero is in or near the range.
  lemma HalfStepExactly(p: Params)
    requires Made(p)
    ensures p.scale > 0.0 && ((forall v :: HalfStep(p, v)) <==> NearZero(p))
  {
    var l, h := MadeScaled(p);
    NearSteps(p, l, h);
    if NearZero(p) {
      forall v
        ensures HalfStep(p, v)
      {
        var x := InSteps(v, p.scale);
        StepsInverse(v, p.scale);
        SmallError(p.quantType, l, h, x);
        HalfStepSteps(p, l, h, x);
      }
    } else {
      LargeError(p.quantType, l, h);
      HalfStepSteps(p, l, h, if l > 0.5 then h else l);
    }
  }

  // The codes of a type: four bits, eight with a sign, or eight without.
  ghost predicate IsCode(t: QuantType, q: int) {
    match t
    case Q4 => 0 <= q <= 15
    case Q8 => -128 <= q <= 127
    case U8 => 0 <= q <= 255
  }

  lemma CodesInRange(p: Params, v: real)
    requires p.scale != 0.0
    ensures IsCode(p.quantType, Quantize(p, v))
  {
  }

  // Values outside the range are quantised like its ends.
  lemma OutsideValues(p: Params, v: real)
    requires p.scale != 0.0 && p.lo <= p.hi
    ensures v < p.lo ==> Quantize(p, v) == Quantize(p, p.lo)
    ensures v > p.hi ==> Quantize(p, v) == Quantize(p, p.hi)
  {
  }

  ghost predicate RoundTrips(p: Params, q: int)
    requires p.scale != 0.0
  {
    IsCode(p.quantType, q) ==> Quantize(p, Dequantize(p, q)) == q
  }

  lemma StepRoundTrip(t: QuantType, l: real, h: real, q: int)
    requires Spans(t, l, h) && l < 0.5 && h > -0.5
    requires t.Min() <= q <= t.Max()
    ensures StepCode(t, l, h, (q - StepZero(t, l)) as real) == q
  {
    var m := q - StepZero(t, l);
    var c := ClampReal(m as real, l, h);
    ZeroPlaced(t, l, h);
    if -0.5 < m as real - c < 0.5 {
      RoundUnique(c, m);
    } else {
      RoundNear(c);
    }
  }

  // With zero half a step or more away, the code at the near end comes back changed.
  lemma StepRoundTripFails(t: QuantType, l: real, h: real)
    requires Spans(t, l, h) && (l >= 0.5 || h <= -0.5)
    ensures var q := if l >= 0.5 then t.Min() else t.Max();
            StepCode(t, l, h, (q - StepZero(t, l)) as real) != q
  {
    RoundNear(t.Min() as real - l);
    RoundNear(if l >= 0.5 then l else h);
  }

  // Codes survive a round trip exactly when zero is in the range or less than half a
  // step away.
  lemma RoundTripExactly(p: Params)
    requires Made(p)
    ensures p.scale > 0.0 && ((forall q :: RoundTrips(p, q)) <==> WellNearZero(p))
  {
    var l, h := MadeScaled(p);
    NearSteps(p, l, h);
    if WellNearZero(p) {
      forall q
        ensures RoundTrips(p, q)
      {
        if IsCode(p.quantType, q) {
          StepRoundTrip(p.quantType, l, h, q);
          QuantizeSteps(p, l, h, (q - p.zeroPoint) as real);
        }
      }
    } else {
      var q := if l >= 0.5 then p.quantType.Min() else p.quantType.Max();
      StepRoundTripFails(p.quantType, l, h);
      QuantizeSteps(p, l, h, (q - p.zeroPoint) as real);
      assert !RoundTrips(p, q);
    }
  }

  // The intended case: zero inside the range.
  lemma ZeroInRange(t: QuantType, min: real, max: real, v: real, q: int)
    requires min <= 0.0 <= max && IsCode(t, q)
    ensures var p := FromRange(t, min, max);
            p.scale > 0.0 && HalfStep(p, v) && Quantize(p, Dequantize(p, q)) == q
  {
    var p := FromRange(t, min, max);
    assert Made(p);
    HalfStepExactly(p);
    RoundTripExactly(p);
    assert HalfStep(p, v) && RoundTrips(p, q);
  }

  // In figures: a value of a range around zero comes back with an error of at most half of
  // a fifteenth or a 255th of the range.
  lemma ErrorBound(t: QuantType, min: real, max: real, v: real)
    requires min <= 0.0 <= max && max - min >= 1.0 / 8388608.0 && min <= v <= max
    ensures var p := FromRange(t, min, max);
      p.scale > 0.0 &&
      var error := Dequantize(p, Quantize(p, v)) - v;
      -(max - min) <= 2.0 * (if t == Q4 then 15.0 else 255.0) * error <= max - min
  {
    var p := FromRange(t, min, max);
    assert Made(p);
    HalfStepExactly(p);
    assert HalfStep(p, v);
    MadeScale(t, min, max, p.scale);
  }

  // A range too narrow to divide is replaced by one of width two around its start.
  lemma NarrowRange(t: QuantType, min: real, max: real)
    requires -1.0 / 8388608.0 < max - min < 1.0 / 8388608.0
    ensures FromRange(t, min, max).lo == min - 1.0 && FromRange(t, min, max).hi == min + 1.0
  {
  }
}
