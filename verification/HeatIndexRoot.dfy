/**
 The square root in the dry-heat adjustment of the guest's heat index, over the reals: six Newton
 steps from one, and how far the adjustment can be from the one with the exact root.
 */
module HeatIndexRoot {

  const STEPS := 6

  function Abs(x: real): real { if x < 0.0 then -x else x }

  function Radicand(temperature: real): real {
    (17.0 - Abs(temperature - 95.0)) / 17.0
  }

  /** The root after n steps. */
  function Newton(radicand: real, n: nat): (root: real)
    requires 0.0 <= radicand
    ensures root > 0.0
  {
    if n == 0 then (if radicand > 1.0 then radicand else 1.0)
    else
      var before := Newton(radicand, n - 1);
      QuotientIsNonnegative(radicand, before);
      0.5 * (before + radicand / before)
  }

  lemma QuotientIsNonnegative(a: real, b: real)
    requires 0.0 <= a && 0.0 < b
    ensures 0.0 <= a / b
  {
  }

  lemma SignOfFactor(x: real, b: real)
    requires 0.0 < b && 0.0 <= x * b
    ensures 0.0 <= x
  {
  }

  ghost predicate IsRoot(s: real, radicand: real) {
    0.0 <= s && s * s == radicand
  }

  /** One step from at or above the root stays there and at least halves the distance. */
  lemma StepHalvesTheError(radicand: real, s: real, root: real)
    requires 0.0 <= s <= root && 0.0 < root && s * s == radicand
    ensures var next := 0.5 * (root + radicand / root); 0.0 <= next - s <= (root - s) / 2.0
  {
    var q := radicand / root;
    assert q * root == s * s;
    var next := 0.5 * (root + q);
    assert (next - s) * root == 0.5 * ((root - s) * (root - s)) by {
      assert next * root == 0.5 * (root * root + q * root);
    }
    SignOfFactor(next - s, root);
    assert (s - q) * root == s * (root - s);
    SignOfFactor(s - q, root);
  }

  /** x / 2^n */
  function Halved(x: real, n: nat): real {
    if n == 0 then x else Halved(x, n - 1) / 2.0
  }

  /** The larger of the radicand and one is no smaller than the root. */
  lemma StartIsAbove(radicand: real, s: real)
    requires IsRoot(s, radicand)
    ensures s <= if radicand > 1.0 then radicand else 1.0
  {
    if s > 1.0 {
      var excess := s - 1.0;
      assert excess * s >= 0.0 && excess * s == s * s - s;
    }
  }

  /** After n steps the error is not negative and has shrunk by 2^n from that of the first guess, the larger of the radicand and one. */
  lemma {:induction false} NewtonBound(radicand: real, s: real, n: nat)
    requires 0.0 <= radicand && IsRoot(s, radicand)
    ensures 0.0 <= Newton(radicand, n) - s <= Halved((if radicand > 1.0 then radicand else 1.0) - s, n)
  {
    if n == 0 {
      StartIsAbove(radicand, s);
    } else {
      NewtonBound(radicand, s, n - 1);
      StepHalvesTheError(radicand, s, Newton(radicand, n - 1));
    }
  }

  lemma SixHalvings(x: real)
    ensures Halved(x, STEPS) == x / 64.0
  {
    assert Halved(x, 2) == Halved(x, 1) / 2.0 == x / 4.0;
    assert Halved(x, 6) == Halved(x, 5) / 2.0 == Halved(x, 4) / 4.0 == Halved(x, 3) / 8.0 == Halved(x, 2) / 16.0;
  }

  /** The temperatures for which the adjustment is made give a radicand between zero and one. */
  lemma AdjustedTemperatures(temperature: real)
    requires 80.0 <= temperature <= 112.0
    ensures 0.0 <= Radicand(temperature) <= 1.0
  {
  }

  /** Six steps reach the square root to within 1/64 of the distance from one. */
  method SquareRoot(radicand: real) returns (root: real)
    requires 0.0 <= radicand
    ensures root == Newton(radicand, STEPS)
    ensures forall s :: radicand <= 1.0 && IsRoot(s, radicand) ==> 0.0 <= root - s <= (1.0 - s) / 64.0
  {
    root := if radicand > 1.0 then radicand else 1.0;
    for i := 0 to STEPS
      invariant root == Newton(radicand, i)
    {
      root := 0.5 * (root + radicand / root);
    }
    forall s | radicand <= 1.0 && IsRoot(s, radicand) ensures 0.0 <= root - s <= (1.0 - s) / 64.0 {
      NewtonBound(radicand, s, STEPS);
      SixHalvings(1.0 - s);
    }
  }

  function Adjustment(humidity: real, root: real): real {
    (13.0 - humidity) / 4.0 * root
  }

  /** The adjustment in degrees Fahrenheit never falls short of the one with the exact root, and exceeds it by at most 13/256. */
  lemma AdjustmentError(temperature: real, humidity: real, s: real)
    requires 80.0 <= temperature <= 112.0 && 0.0 <= humidity < 13.0
    requires IsRoot(s, Radicand(temperature))
    ensures 0.0 <= Adjustment(humidity, Newton(Radicand(temperature), STEPS)) - Adjustment(humidity, s) <= 13.0 / 256.0
  {
    AdjustedTemperatures(temperature);
    NewtonBound(Radicand(temperature), s, STEPS);
    SixHalvings(1.0 - s);
    ScaledError((13.0 - humidity) / 4.0, Newton(Radicand(temperature), STEPS) - s);
    hide Newton, Radicand;
    assert Adjustment(humidity, Newton(Radicand(temperature), STEPS)) - Adjustment(humidity, s)
        == (13.0 - humidity) / 4.0 * (Newton(Radicand(temperature), STEPS) - s);
  }

  lemma ScaledError(k: real, e: real)
    requires 0.0 <= k <= 13.0 / 4.0 && 0.0 <= e <= 1.0 / 64.0
    ensures 0.0 <= k * e <= 13.0 / 256.0
  {
    var d, h := 1.0 / 64.0 - e, 13.0 / 4.0 - k;
    assert k * d >= 0.0 && h >= 0.0 && k * e >= 0.0;
    assert k * e == k * (1.0 / 64.0) - k * d;
  }
}
