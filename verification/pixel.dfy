/**
  The per-pixel step of `adjustColors`: boost the RGB channels by the
  factor (capped at 255), convert to HSV, boost saturation and value by the
  same factor (capped at 1), and convert back.
 */
module Pixel {
  import opened ColorSpace
  import opened ColorSpaceFacts
  import opened Scaling

  /**
    `Math.min(cap, x * k)`: x multiplied by the factor and capped. For a
    value already in [0, cap] and a factor of at least 1 the result never
    falls below x and stays in [x, cap]; a factor of exactly 1 leaves it.
   */
  function Amplify(x: real, k: real, cap: real): (y: real)
    ensures y <= cap
    ensures 0.0 <= x && 0.0 <= k && 0.0 <= cap ==> 0.0 <= y
    ensures 0.0 <= x <= cap && 1.0 <= k ==> x <= y
    ensures k == 1.0 && x <= cap ==> y == x
  {
    ProductNonNegative(x, k);
    ProductAtLeast(x, k);
    Min(cap, x * k)
  }

  lemma ProductNonNegative(x: real, k: real)
    ensures 0.0 <= x && 0.0 <= k ==> 0.0 <= x * k
  {
  }

  lemma ProductAtLeast(x: real, k: real)
    ensures 0.0 <= x && 1.0 <= k ==> x <= x * k
  {
  }

  /** The channels after the first boost (source lines 87-89). */
  function Boosted(c: Rgb, k: real): (b: Rgb)
    ensures b.r <= 255.0 && b.g <= 255.0 && b.b <= 255.0
    ensures InGamut(c) && 0.0 <= k ==> InGamut(b)
    ensures InGamut(c) && k == 1.0 ==> b == c
  {
    Rgb(Amplify(c.r, k, 255.0), Amplify(c.g, k, 255.0), Amplify(c.b, k, 255.0))
  }

  /** HSV after the second boost (source lines 92-96): hue kept, s and v boosted and capped at 1. */
  function BoostedHsv(c: Rgb, k: real): (x: Hsv)
    ensures 0.0 <= x.h < 1.0
    ensures x.h == RgbToHsv(Boosted(c, k)).h
    ensures x.s <= 1.0 && x.v <= 1.0
  {
    var y := RgbToHsv(Boosted(c, k));
    Hsv(y.h, Amplify(y.s, k, 1.0), Amplify(y.v, k, 1.0))
  }

  /** The new RGB of one pixel (source lines 82-99). */
  function AdjustPixel(c: Rgb, k: real): Rgb {
    HsvToRgb(BoostedHsv(c, k))
  }

  /** A factor of at least 0 maps a pixel in [0, 255] to a pixel in [0, 255]. */
  lemma AdjustPixelInGamut(c: Rgb, k: real)
    requires InGamut(c) && 0.0 <= k
    ensures InGamut(AdjustPixel(c, k))
  {
    var b := Boosted(c, k);
    RgbToHsvRange(b);
    HsvToRgbBounds(BoostedHsv(c, k));
  }

  /**
    For a factor of at least 1 no pixel in [0, 255] gets darker: the
    largest output channel is at least the largest input channel.
   */
  lemma AdjustPixelNeverDarker(c: Rgb, k: real)
    requires InGamut(c) && 1.0 <= k
    ensures var o := AdjustPixel(c, k);
      Max3(c.r, c.g, c.b) <= Max3(o.r, o.g, o.b)
  {
    var b := Boosted(c, k);
    RgbToHsvRange(b);
    var x := BoostedHsv(c, k);
    HsvToRgbBounds(x);
    assert Max3(c.r, c.g, c.b) <= Max3(b.r, b.g, b.b);
  }

  /** Black stays black, whatever the factor. */
  lemma AdjustPixelBlack(c: Rgb, k: real)
    requires c == Rgb(0.0, 0.0, 0.0)
    ensures AdjustPixel(c, k) == c
  {
    BlackHsv(c, k);
    HsvToRgbDark(BoostedHsv(c, k));
  }

  /** Saturation and value 0 give black, whatever the hue. */
  lemma HsvToRgbDark(x: Hsv)
    requires 0.0 <= x.h && x.s == 0.0 && x.v == 0.0
    ensures HsvToRgb(x) == Rgb(0.0, 0.0, 0.0)
  {
    HsvToRgbGrey(x);
    GreyOfZero(x.v);
  }

  lemma GreyOfZero(v: real)
    requires v == 0.0
    ensures Rgb(255.0 * v, 255.0 * v, 255.0 * v) == Rgb(0.0, 0.0, 0.0)
  {
  }

  /** Black boosted: saturation and value 0. */
  lemma BlackHsv(c: Rgb, k: real)
    requires c == Rgb(0.0, 0.0, 0.0)
    ensures BoostedHsv(c, k).s == 0.0 && BoostedHsv(c, k).v == 0.0
  {
    var b := Boosted(c, k);
    assert b == c;
    RgbToHsvBlack();
  }

  /** A factor of 1 gives every pixel in [0, 255] back unchanged. */
  lemma AdjustPixelNeutral(c: Rgb)
    requires InGamut(c)
    ensures AdjustPixel(c, 1.0) == c
  {
    RgbToHsvRange(c);
    assert BoostedHsv(c, 1.0) == RgbToHsv(c);
    RoundTrip(c);
  }

  /**
    A worked pixel: (100, 150, 200) at factor 1.5 is boosted to
    (150, 225, 255), has hue 23/42, saturation 7/17 and value 1, is boosted
    to saturation 21/34 and value 1, and comes back as (97.5, 210, 255).
    The smallest channel goes down: raising the saturation pulls it towards 0.
   */
  lemma AdjustPixelExample(c: Rgb)
    requires c == Rgb(100.0, 150.0, 200.0)
    ensures AdjustPixel(c, 1.5) == Rgb(97.5, 210.0, 255.0)
  {
    var b := Boosted(c, 1.5);
    assert b == Rgb(150.0, 225.0, 255.0);
    ExampleHsv(b);
    var x := BoostedHsv(c, 1.5);
    assert x == Hsv(23.0 / 42.0, 21.0 / 34.0, 1.0);
    ExampleRgb(x);
  }

  lemma ExampleHsv(b: Rgb)
    requires b == Rgb(150.0, 225.0, 255.0)
    ensures RgbToHsv(b) == Hsv(23.0 / 42.0, 7.0 / 17.0, 1.0)
  {
    assert Dominant(Normalize(b)) == Blue;
  }

  lemma ExampleRgb(x: Hsv)
    requires x == Hsv(23.0 / 42.0, 21.0 / 34.0, 1.0)
    ensures HsvToRgb(x) == Rgb(97.5, 210.0, 255.0)
  {
    var k, f := UnitOfHsvTable(x);
    assert (23.0 / 7.0).Floor == 3;
    assert k == 3 && f == 2.0 / 7.0;
    var p, q, t := PqtValues(x.v, x.s, f);
    assert p == 13.0 / 34.0 && q == 14.0 / 17.0;
    assert UnitOfHsv(x) == Rgb(p, q, 1.0);
  }

  /**
    While no channel reaches 255, the first boost multiplies all three
    channels by the factor and so is a plain scaling.
   */
  lemma BoostUnclipped(c: Rgb, k: real)
    requires NonNegative(c) && 0.0 <= k && k * Max3(c.r, c.g, c.b) <= 255.0
    ensures Boosted(c, k) == Scaled(c, k)
  {
    var mx := Max3(c.r, c.g, c.b);
    AmplifyUnclipped(c.r, mx, k);
    AmplifyUnclipped(c.g, mx, k);
    AmplifyUnclipped(c.b, mx, k);
  }

  /** A channel no larger than one whose product stays within 255 is multiplied, not capped. */
  lemma AmplifyUnclipped(x: real, m: real, k: real)
    requires 0.0 <= k && x <= m && k * m <= 255.0
    ensures Amplify(x, k, 255.0) == k * x
  {
    ProductBelow(x, m, k);
  }

  lemma ProductBelow(x: real, m: real, k: real)
    requires 0.0 <= k && x <= m
    ensures x * k == k * x && k * x <= k * m
  {
  }

  /**
    When the first boost clips nothing (factor times the largest channel at
    most 255), the boosted HSV keeps the hue of the original, and its
    saturation and value are the original ones boosted (the value twice).
   */
  lemma AdjustPixelHueKept(c: Rgb, k: real)
    requires NonNegative(c) && 0.0 < k && k * Max3(c.r, c.g, c.b) <= 255.0
    ensures BoostedHsv(c, k).h == RgbToHsv(c).h
    ensures BoostedHsv(c, k).s == Amplify(RgbToHsv(c).s, k, 1.0)
    ensures BoostedHsv(c, k).v == Amplify(k * RgbToHsv(c).v, k, 1.0)
  {
    BoostUnclipped(c, k);
    RgbToHsvScale(c, k);
  }

  /**
    When the first boost clips, the hue can move: (100, 150, 200) has hue
    7/12, but at factor 1.5 its blue channel is clipped and the boosted HSV
    has hue 23/42.
   */
  lemma AdjustPixelHueDrift(c: Rgb)
    requires c == Rgb(100.0, 150.0, 200.0)
    ensures RgbToHsv(c).h == 7.0 / 12.0
    ensures BoostedHsv(c, 1.5).h == 23.0 / 42.0
  {
    assert Dominant(Normalize(c)) == Blue;
    var b := Boosted(c, 1.5);
    assert b == Rgb(150.0, 225.0, 255.0);
    ExampleHsv(b);
  }
}
