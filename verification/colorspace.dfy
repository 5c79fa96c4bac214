/**
  The colour-space converter of the colour-adjust editor: `rgbToHsv` and
  `hsvToRgb` of colorAdjust.js, over exact reals.

  The source works on JavaScript doubles; here every quantity is a Dafny
  `real`, so every claim below is about exact arithmetic.
 */
module ColorSpace {

  /** An RGB triple. Channels are nominally in [0, 255] but are not required to be. */
  datatype Rgb = Rgb(r: real, g: real, b: real)

  /** An HSV triple: hue is a fraction of a full turn, saturation and value are fractions. */
  datatype Hsv = Hsv(h: real, s: real, v: real)

  /** The three colour channels, in the order the hue branch checks them. */
  datatype Channel = Red | Green | Blue

  /** All three channels lie in [0, 255]. */
  predicate InGamut(c: Rgb) {
    0.0 <= c.r <= 255.0 && 0.0 <= c.g <= 255.0 && 0.0 <= c.b <= 255.0
  }

  /** No channel is negative. */
  predicate NonNegative(c: Rgb) {
    0.0 <= c.r && 0.0 <= c.g && 0.0 <= c.b
  }

  // ---------------------------------------------------------------------
  // Math.max / Math.min
  // ---------------------------------------------------------------------

  function Max(a: real, b: real): (m: real)
    ensures a <= m && b <= m
    ensures m == a || m == b
  {
    if a < b then b else a
  }

  function Min(a: real, b: real): (m: real)
    ensures m <= a && m <= b
    ensures m == a || m == b
  {
    if b < a then b else a
  }

  /** `Math.max(r, g, b)`: the largest of the three, and one of them. */
  function Max3(a: real, b: real, c: real): (m: real)
    ensures a <= m && b <= m && c <= m
    ensures m == a || m == b || m == c
  {
    Max(Max(a, b), c)
  }

  /** `Math.min(r, g, b)`: the smallest of the three, and one of them. */
  function Min3(a: real, b: real, c: real): (m: real)
    ensures m <= a && m <= b && m <= c
    ensures m == a || m == b || m == c
  {
    Min(Min(a, b), c)
  }

  // ---------------------------------------------------------------------
  // rgbToHsv
  // ---------------------------------------------------------------------

  function ChannelValue(ch: Channel, u: Rgb): real {
    match ch
    case Red => u.r
    case Green => u.g
    case Blue => u.b
  }

  /**
    The channel the `switch (max)` selects: the first of red, green, blue
    (in that order) whose value is the maximum.
   */
  function Dominant(u: Rgb): (ch: Channel)
    ensures ChannelValue(ch, u) == Max3(u.r, u.g, u.b)
    ensures ch != Red ==> u.r < Max3(u.r, u.g, u.b)
    ensures ch == Blue ==> u.g < Max3(u.r, u.g, u.b)
  {
    var mx := Max3(u.r, u.g, u.b);
    if mx == u.r then Red
    else if mx == u.g then Green
    else Blue
  }

  /**
    The hue in sextants (before the division by 6) computed by the branch for
    channel `ch`, where `d` is the spread between the largest and the smallest
    channel.
   */
  function SextantHue(ch: Channel, u: Rgb, d: real): real
    requires d != 0.0
  {
    match ch
    case Red => (u.g - u.b) / d + (if u.g < u.b then 6.0 else 0.0)
    case Green => (u.b - u.r) / d + 2.0
    case Blue => (u.r - u.g) / d + 4.0
  }

  /** The channels scaled from [0, 255] to [0, 1]. */
  function Normalize(c: Rgb): (u: Rgb)
    ensures InGamut(c) <==> (0.0 <= u.r <= 1.0 && 0.0 <= u.g <= 1.0 && 0.0 <= u.b <= 1.0)
  {
    Rgb(c.r / 255.0, c.g / 255.0, c.b / 255.0)
  }

  /**
    HSV of an already normalised triple. Hue is always in [0, 1), whatever
    the channels: the `+ 6` for a red maximum with green below blue lifts
    the otherwise negative hue into the last sextant.
   */
  function HsvOfUnit(u: Rgb): (x: Hsv)
    ensures x.v == Max3(u.r, u.g, u.b)
    ensures 0.0 <= x.h < 1.0
    ensures u.r == u.g == u.b ==> x.h == 0.0 && x.s == 0.0
  {
    var mx := Max3(u.r, u.g, u.b);
    var mn := Min3(u.r, u.g, u.b);
    var d := mx - mn;
    var s := if mx == 0.0 then 0.0 else d / mx;
    if mx == mn then
      Hsv(0.0, s, mx)
    else
      SextantHueRange(u);
      Hsv(SextantHue(Dominant(u), u, d) / 6.0, s, mx)
  }

  /** `rgbToHsv(r, g, b)`. */
  function RgbToHsv(c: Rgb): (x: Hsv)
    ensures 0.0 <= x.h < 1.0
    ensures x.v * 255.0 == Max3(c.r, c.g, c.b)
  {
    var u := Normalize(c);
    MaxScales(c);
    HsvOfUnit(u)
  }

  lemma MaxScales(c: Rgb)
    ensures Max3(c.r / 255.0, c.g / 255.0, c.b / 255.0) * 255.0 == Max3(c.r, c.g, c.b)
  {
  }

  /** Dividing by a positive d keeps the order of x against -d, 0 and d. */
  lemma QuotientBounds(x: real, d: real)
    requires 0.0 < d && -d <= x <= d
    ensures -1.0 <= x / d <= 1.0
    ensures x < d ==> x / d < 1.0
    ensures -d < x ==> -1.0 < x / d
    ensures 0.0 <= x ==> 0.0 <= x / d
    ensures x < 0.0 ==> x / d < 0.0
    ensures x == d ==> x / d == 1.0
  {
    QuotientOrder(x, d);
    QuotientUnit(x, d);
  }

  /** The quotient by a positive d has the sign of the dividend. */
  lemma QuotientOrder(y: real, d: real)
    requires 0.0 < d
    ensures 0.0 <= y ==> 0.0 <= y / d
    ensures 0.0 < y ==> 0.0 < y / d
    ensures y < 0.0 ==> y / d < 0.0
    ensures y <= 0.0 ==> y / d <= 0.0
  {
  }

  /** Against a positive d, x compares with d and -d as x / d compares with 1 and -1. */
  lemma QuotientUnit(x: real, d: real)
    requires 0.0 < d
    ensures x <= d ==> x / d <= 1.0
    ensures x < d ==> x / d < 1.0
    ensures -d <= x ==> -1.0 <= x / d
    ensures -d < x ==> -1.0 < x / d
    ensures d <= x ==> 1.0 <= x / d
  {
  }

  /** The sextant hue of the dominant channel lies in [0, 6). */
  lemma SextantHueRange(u: Rgb)
    requires Max3(u.r, u.g, u.b) != Min3(u.r, u.g, u.b)
    ensures 0.0 <= SextantHue(Dominant(u), u, Max3(u.r, u.g, u.b) - Min3(u.r, u.g, u.b)) < 6.0
  {
    var mx := Max3(u.r, u.g, u.b);
    var d := mx - Min3(u.r, u.g, u.b);
    match Dominant(u)
    case Red => QuotientBounds(u.g - u.b, d);
    case Green => QuotientBounds(u.b - u.r, d);
    case Blue => QuotientBounds(u.r - u.g, d);
  }

  // ---------------------------------------------------------------------
  // hsvToRgb
  // ---------------------------------------------------------------------

  /**
    The fixed six-way table: sector `k` decides which of v, p, q, t goes to
    red, green and blue.
   */
  function SectorRgb(k: int, v: real, p: real, q: real, t: real): (u: Rgb)
    requires 0 <= k < 6
  {
    if k == 0 then Rgb(v, t, p)
    else if k == 1 then Rgb(q, v, p)
    else if k == 2 then Rgb(p, v, t)
    else if k == 3 then Rgb(p, q, v)
    else if k == 4 then Rgb(t, p, v)
    else Rgb(v, p, q)
  }

  /**
    The reconstruction before scaling by 255. A negative hue is excluded:
    there JavaScript's `i % 6` is negative and the `switch` matches no case,
    except that a multiple of 6 gives `-0`, which selects case 0.
   */
  function UnitOfHsv(x: Hsv): Rgb
    requires 0.0 <= x.h
  {
    var i := (x.h * 6.0).Floor;
    var f := x.h * 6.0 - i as real;
    var p := x.v * (1.0 - x.s);
    var q := x.v * (1.0 - f * x.s);
    var t := x.v * (1.0 - (1.0 - f) * x.s);
    SectorRgb(i % 6, x.v, p, q, t)
  }

  /** The channels scaled from [0, 1] to [0, 255]. */
  function Scale255(u: Rgb): (c: Rgb)
    ensures Normalize(c) == u
  {
    Rgb(u.r * 255.0, u.g * 255.0, u.b * 255.0)
  }

  /** `hsvToRgb(h, s, v)`. */
  function HsvToRgb(x: Hsv): Rgb
    requires 0.0 <= x.h
  {
    Scale255(UnitOfHsv(x))
  }
}
