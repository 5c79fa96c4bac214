/**
  Scale invariance of `rgbToHsv`: multiplying all three channels by the
  same positive factor keeps hue and saturation and multiplies value by
  that factor. This is what lets the first boost of `adjustColors`
  (colorAdjust.js:87-89) leave the hue alone while no channel is clipped.
 */
module Scaling {
  import opened ColorSpace

  /** All three channels multiplied by k. */
  function Scaled(c: Rgb, k: real): Rgb {
    Rgb(k * c.r, k * c.g, k * c.b)
  }

  /** The spread between the largest and the smallest channel. */
  function Spread(u: Rgb): real {
    Max3(u.r, u.g, u.b) - Min3(u.r, u.g, u.b)
  }

  lemma MulOrder(a: real, b: real, k: real)
    requires 0.0 < k
    ensures a <= b <==> k * a <= k * b
    ensures a == b <==> k * a == k * b
  {
  }

  lemma PairScale(a: real, b: real, k: real)
    requires 0.0 < k
    ensures Max(k * a, k * b) == k * Max(a, b)
    ensures Min(k * a, k * b) == k * Min(a, b)
  {
    MulOrder(a, b, k);
    MulOrder(b, a, k);
  }

  lemma Max3Scale(a: real, b: real, c: real, k: real)
    requires 0.0 < k
    ensures Max3(k * a, k * b, k * c) == k * Max3(a, b, c)
  {
    var m := Max(a, b);
    PairScale(a, b, k);
    assert Max(k * a, k * b) == k * m;
    PairScale(m, c, k);
  }

  lemma Min3Scale(a: real, b: real, c: real, k: real)
    requires 0.0 < k
    ensures Min3(k * a, k * b, k * c) == k * Min3(a, b, c)
  {
    var m := Min(a, b);
    PairScale(a, b, k);
    assert Min(k * a, k * b) == k * m;
    PairScale(m, c, k);
  }

  lemma DominantScale(u: Rgb, k: real)
    requires 0.0 < k
    ensures Dominant(Scaled(u, k)) == Dominant(u)
  {
    Max3Scale(u.r, u.g, u.b, k);
    var mx := Max3(u.r, u.g, u.b);
    MulOrder(u.r, mx, k);
    MulOrder(u.g, mx, k);
  }

  lemma QuotientScale(x: real, y: real, d: real, k: real)
    requires 0.0 < k && d != 0.0 && y == k * x
    ensures y / (k * d) == x / d
  {
  }

  lemma SextantHueScale(ch: Channel, u: Rgb, w: Rgb, d: real, dw: real, k: real)
    requires 0.0 < k && d != 0.0 && w == Scaled(u, k) && dw == k * d
    ensures dw != 0.0 && SextantHue(ch, w, dw) == SextantHue(ch, u, d)
  {
    match ch
    case Red =>
      MulOrder(u.b, u.g, k);
      QuotientScale(u.g - u.b, w.g - w.b, d, k);
    case Green =>
      QuotientScale(u.b - u.r, w.b - w.r, d, k);
    case Blue =>
      QuotientScale(u.r - u.g, w.r - w.g, d, k);
  }

  lemma MaxOfScaled(u: Rgb, k: real, w: Rgb)
    requires 0.0 < k && w == Scaled(u, k)
    ensures Max3(w.r, w.g, w.b) == k * Max3(u.r, u.g, u.b)
  {
    Max3Scale(u.r, u.g, u.b, k);
  }

  lemma MinOfScaled(u: Rgb, k: real, w: Rgb)
    requires 0.0 < k && w == Scaled(u, k)
    ensures Min3(w.r, w.g, w.b) == k * Min3(u.r, u.g, u.b)
  {
    Min3Scale(u.r, u.g, u.b, k);
  }

  /** The largest and smallest channel of a scaled triple, in terms of the original. */
  lemma ExtremesScale(u: Rgb, k: real) returns (w: Rgb, mx: real, mn: real)
    requires 0.0 < k
    ensures w == Scaled(u, k)
    ensures mx == Max3(u.r, u.g, u.b) && mn == Min3(u.r, u.g, u.b)
    ensures Max3(w.r, w.g, w.b) == k * mx && Min3(w.r, w.g, w.b) == k * mn
    ensures Max3(w.r, w.g, w.b) - Min3(w.r, w.g, w.b) == k * (mx - mn)
    ensures Max3(w.r, w.g, w.b) == 0.0 <==> mx == 0.0
    ensures Max3(w.r, w.g, w.b) == Min3(w.r, w.g, w.b) <==> mx == mn
  {
    w := Scaled(u, k);
    mx, mn := Max3(u.r, u.g, u.b), Min3(u.r, u.g, u.b);
    MaxOfScaled(u, k, w);
    MinOfScaled(u, k, w);
    Distribute(k, mx, mn);
    MulOrder(mx, 0.0, k);
    MulOrder(mx, mn, k);
  }

  lemma Distribute(k: real, a: real, b: real)
    ensures k * (a - b) == k * a - k * b
  {
  }

  /** Two triples with the same dominant channel and the same branch ratio have the same hue. */
  lemma HueOfShape(u: Rgb, w: Rgb, ch: Channel, du: real, dw: real)
    requires Dominant(u) == ch && Dominant(w) == ch
    requires du == Spread(u) && dw == Spread(w)
    requires du == 0.0 <==> dw == 0.0
    requires du != 0.0 ==> SextantHue(ch, w, dw) == SextantHue(ch, u, du)
    ensures HsvOfUnit(w).h == HsvOfUnit(u).h
  {
  }

  /** Two triples whose spread-to-maximum ratios agree have the same saturation. */
  lemma SaturationOfShape(u: Rgb, w: Rgb, mu: real, mw: real, du: real, dw: real)
    requires mu == Max3(u.r, u.g, u.b) && mw == Max3(w.r, w.g, w.b)
    requires du == Spread(u) && dw == Spread(w)
    requires mu == 0.0 <==> mw == 0.0
    requires mu != 0.0 ==> dw / mw == du / mu
    ensures HsvOfUnit(w).s == HsvOfUnit(u).s
  {
    SaturationOf(u, mu, du);
    SaturationOf(w, mw, dw);
  }

  /** The saturation of a normalised triple: the spread over the maximum, or 0 for black. */
  lemma SaturationOf(u: Rgb, m: real, d: real)
    requires m == Max3(u.r, u.g, u.b) && d == Spread(u)
    ensures HsvOfUnit(u).s == if m == 0.0 then 0.0 else d / m
  {
  }

  lemma SaturationScale(u: Rgb, k: real)
    requires 0.0 < k
    ensures HsvOfUnit(Scaled(u, k)).s == HsvOfUnit(u).s
  {
    var w, mx, mn := ExtremesScale(u, k);
    if mx != 0.0 {
      QuotientScale(mx - mn, k * (mx - mn), mx, k);
    }
    SaturationOfShape(u, w, mx, k * mx, mx - mn, k * (mx - mn));
  }

  lemma HueScale(u: Rgb, k: real)
    requires 0.0 < k
    ensures HsvOfUnit(Scaled(u, k)).h == HsvOfUnit(u).h
  {
    var w, mx, mn := ExtremesScale(u, k);
    var ch := Dominant(u);
    DominantScale(u, k);
    assert Dominant(w) == ch;
    assert Spread(w) == k * (mx - mn);
    if mx != mn {
      SextantHueScale(ch, u, w, mx - mn, k * (mx - mn), k);
    }
    HueOfShape(u, w, ch, mx - mn, k * (mx - mn));
  }

  /** Scaling a triple by k > 0 scales v and keeps h and s. */
  lemma HsvOfUnitScale(u: Rgb, k: real)
    requires 0.0 < k
    ensures HsvOfUnit(Scaled(u, k)).h == HsvOfUnit(u).h
    ensures HsvOfUnit(Scaled(u, k)).s == HsvOfUnit(u).s
    ensures HsvOfUnit(Scaled(u, k)).v == k * HsvOfUnit(u).v
  {
    var w, mx, mn := ExtremesScale(u, k);
    assert HsvOfUnit(w).v == Max3(w.r, w.g, w.b);
    assert HsvOfUnit(u).v == mx;
    SaturationScale(u, k);
    HueScale(u, k);
  }

  /** Normalising a scaled triple is scaling the normalised triple. */
  lemma NormalizeScaled(c: Rgb, k: real)
    ensures Normalize(Scaled(c, k)) == Scaled(Normalize(c), k)
  {
  }

  /**
    `rgbToHsv` of a triple scaled by k > 0: the same hue and saturation, and
    k times the value.
   */
  lemma RgbToHsvScale(c: Rgb, k: real)
    requires 0.0 < k
    ensures RgbToHsv(Scaled(c, k)).h == RgbToHsv(c).h
    ensures RgbToHsv(Scaled(c, k)).s == RgbToHsv(c).s
    ensures RgbToHsv(Scaled(c, k)).v == k * RgbToHsv(c).v
  {
    var n, ns := Normalize(c), Normalize(Scaled(c, k));
    NormalizeScaled(c, k);
    assert ns == Scaled(n, k);
    HsvOfUnitScale(n, k);
    assert RgbToHsv(c) == HsvOfUnit(n);
    assert RgbToHsv(Scaled(c, k)) == HsvOfUnit(ns);
  }
}
