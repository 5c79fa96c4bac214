/**
  The slider of the colour-adjust editor: the map from the slider reading
  to the multiplicative adjustment factor of `adjustColors`.
 */
module Intensity {

  /**
    The adjustment factor for a slider reading. The slider nominally runs
    over [0, 100], giving factors in [1.0, 1.5]; the reading is not clamped,
    so any real is accepted and every real factor is reached.
   */
  function Factor(slider: real): (k: real)
    ensures (k - 1.0) * 200.0 == slider
    ensures 0.0 <= slider <==> 1.0 <= k
    ensures 0.0 <= slider <= 100.0 <==> 1.0 <= k <= 1.5
  {
    1.0 + slider / 100.0 * 0.5
  }

  /** The slider reading that yields factor k: the inverse of Factor. */
  function SliderOf(k: real): (slider: real)
    ensures Factor(slider) == k
  {
    (k - 1.0) * 200.0
  }

  /** Factor and SliderOf are inverse to each other. */
  lemma FactorInverse(slider: real, k: real)
    ensures SliderOf(Factor(slider)) == slider
    ensures Factor(SliderOf(k)) == k
  {
  }

  /** A larger reading gives a larger factor, and only a larger reading does. */
  lemma FactorMonotone(a: real, b: real)
    ensures a <= b <==> Factor(a) <= Factor(b)
    ensures a < b <==> Factor(a) < Factor(b)
  {
  }

  /** The documented readings: 0 leaves colours alone, 50 gives 1.25, 100 gives 1.5. */
  lemma FactorSamples()
    ensures Factor(0.0) == 1.0
    ensures Factor(50.0) == 1.25
    ensures Factor(100.0) == 1.5
  {
  }
}
