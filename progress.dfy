/**
  The progress-bar percentage: how much of the planned loss from the
  starting to the target weight the latest weight represents, clamped to
  [0, 100]. Arithmetic is exact; the browser's floating point is not
  modelled.
 */
module Progress {

  function Min(a: real, b: real): real { if a <= b then a else b }

  function Max(a: real, b: real): real { if a >= b then a else b }

  /** The unclamped share of the planned loss, in percent; 0 when the plan
      asks for no loss at all. */
  function RawPercentage(start: real, target: real, current: real): real
  {
    var totalToLose := start - target;
    var lost := start - current;
    if totalToLose > 0.0 then (lost / totalToLose) * 100.0 else 0.0
  }

  /** `Math.min(100, Math.max(0, percentage))`. */
  function Percentage(start: real, target: real, current: real): (p: real)
    ensures 0.0 <= p <= 100.0
    ensures start - target <= 0.0 ==> p == 0.0
  {
    Min(100.0, Max(0.0, RawPercentage(start, target, current)))
  }

  /** Dividing by a positive amount keeps order and the comparison with 0
      and with the divisor itself. */
  lemma DivideByPositive(a: real, b: real, t: real)
    requires t > 0.0
    ensures a <= b ==> a / t <= b / t
    ensures a / t <= 0.0 <==> a <= 0.0
    ensures a / t <= 1.0 <==> a <= t
  {
    var p, q := a / t, b / t;
    assert p * t == a && q * t == b;
    if p > 0.0 { assert p * t > 0.0; }
    if p < 0.0 { assert p * t < 0.0; }
    if p > 1.0 {
      assert (p - 1.0) * t > 0.0;
      assert (p - 1.0) * t == a - t;
    }
    if p < 1.0 {
      assert (1.0 - p) * t > 0.0;
      assert (1.0 - p) * t == t - a;
    }
  }

  /** Between the start and the target, the percentage is the exact share of
      the planned loss achieved so far. */
  lemma PercentageInBand(start: real, target: real, current: real)
    requires target < start
    requires target <= current <= start
    ensures Percentage(start, target, current) == (start - current) / (start - target) * 100.0
  {
    DivideByPositive(start - current, 0.0, start - target);
    DivideByPositive(0.0, start - current, start - target);
  }

  /** A weight at or below the target counts as the whole goal reached. */
  lemma PercentageAtTarget(start: real, target: real, current: real)
    requires target < start
    requires current <= target
    ensures Percentage(start, target, current) == 100.0
  {
    DivideByPositive(start - target, start - current, start - target);
  }

  /** A weight at or above the start counts as no progress. */
  lemma PercentageAtStart(start: real, target: real, current: real)
    requires current >= start
    ensures Percentage(start, target, current) == 0.0
  {
    if start - target > 0.0 {
      DivideByPositive(start - current, 0.0, start - target);
    }
  }

  /** The three bands of a plan that asks for a loss. */
  lemma PercentageCases(start: real, target: real, current: real)
    requires target < start
    ensures current <= target ==> Percentage(start, target, current) == 100.0
    ensures current >= start ==> Percentage(start, target, current) == 0.0
    ensures target <= current <= start ==>
      Percentage(start, target, current) == (start - current) / (start - target) * 100.0
  {
    if current <= target {
      PercentageAtTarget(start, target, current);
    }
    if current >= start {
      PercentageAtStart(start, target, current);
    }
    if target <= current <= start {
      PercentageInBand(start, target, current);
    }
  }

  /** Losing more weight never lowers the percentage. */
  lemma PercentageMonotone(start: real, target: real, lighter: real, heavier: real)
    requires lighter <= heavier
    ensures Percentage(start, target, heavier) <= Percentage(start, target, lighter)
  {
    if start - target > 0.0 {
      DivideByPositive(start - heavier, start - lighter, start - target);
    }
  }
}
