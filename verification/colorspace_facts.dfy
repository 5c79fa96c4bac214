/**
  Properties of the colour-space converter: the ranges of both conversions,
  the achromatic and grey cases, the independence of the hue from the
  tie-break between equal maxima, and the round trip
  hsvToRgb(rgbToHsv(c)) == c over exact reals.
 */
module ColorSpaceFacts {
  import opened ColorSpace

  // ---------------------------------------------------------------------
  // rgbToHsv
  // ---------------------------------------------------------------------

  /** For channels in [0, 255]: s and v are fractions, v is the largest channel over 255, h is in [0, 1). */
  lemma RgbToHsvRange(c: Rgb)
    requires InGamut(c)
    ensures var x := RgbToHsv(c);
      && 0.0 <= x.h < 1.0
      && 0.0 <= x.s <= 1.0
      && 0.0 <= x.v <= 1.0
      && x.v == Max3(c.r, c.g, c.b) / 255.0
  {
    var u := Normalize(c);
    var mx := Max3(u.r, u.g, u.b);
    var mn := Min3(u.r, u.g, u.b);
    if mx != 0.0 {
      QuotientBounds(mx - mn, mx);
    }
  }

  /**
    For non-negative channels, saturation is zero exactly when the colour is
    achromatic (all channels equal), and an achromatic colour has hue zero.
   */
  lemma RgbToHsvAchromatic(c: Rgb)
    requires NonNegative(c)
    ensures RgbToHsv(c).s == 0.0 <==> c.r == c.g == c.b
    ensures c.r == c.g == c.b ==> RgbToHsv(c).h == 0.0
  {
    var u := Normalize(c);
    var mx := Max3(u.r, u.g, u.b);
    var mn := Min3(u.r, u.g, u.b);
    if mx != 0.0 && mx != mn {
      assert 0.0 < (mx - mn) / mx;
    }
  }

  /** Black maps to (0, 0, 0) and white to (0, 0, 1). */
  lemma RgbToHsvBlackWhite()
    ensures RgbToHsv(Rgb(0.0, 0.0, 0.0)) == Hsv(0.0, 0.0, 0.0)
    ensures RgbToHsv(Rgb(255.0, 255.0, 255.0)) == Hsv(0.0, 0.0, 1.0)
  {
    RgbToHsvBlack();
    RgbToHsvWhite();
  }

  lemma RgbToHsvBlack()
    ensures RgbToHsv(Rgb(0.0, 0.0, 0.0)) == Hsv(0.0, 0.0, 0.0)
  {
  }

  lemma RgbToHsvWhite()
    ensures RgbToHsv(Rgb(255.0, 255.0, 255.0)) == Hsv(0.0, 0.0, 1.0)
  {
  }

  /**
    When several channels share the maximum, every one of their branches
    yields the same hue, so the first-match tie-break of the `switch` does
    not influence the result.
   */
  lemma HueTieIndependent(u: Rgb, ch: Channel)
    requires Max3(u.r, u.g, u.b) != Min3(u.r, u.g, u.b)
    requires ChannelValue(ch, u) == Max3(u.r, u.g, u.b)
    ensures var d := Max3(u.r, u.g, u.b) - Min3(u.r, u.g, u.b);
      SextantHue(ch, u, d) == SextantHue(Dominant(u), u, d)
  {
    var mx := Max3(u.r, u.g, u.b);
    var mn := Min3(u.r, u.g, u.b);
    var d := mx - mn;
    var dom := Dominant(u);
    if ch != dom {
      if dom == Red && ch == Green {
        // red and green share the maximum, so blue is the minimum
        assert u.b == mn;
        assert (u.g - u.b) / d == 1.0;
        assert (u.b - u.r) / d == -1.0;
      } else if dom == Red && ch == Blue {
        assert u.g == mn;
        assert (u.g - u.b) / d == -1.0;
        assert (u.r - u.g) / d == 1.0;
      } else if dom == Green && ch == Blue {
        assert u.r == mn;
        assert (u.b - u.r) / d == 1.0;
        assert (u.r - u.g) / d == -1.0;
      }
    }
  }

  // ---------------------------------------------------------------------
  // hsvToRgb
  // ---------------------------------------------------------------------

  lemma ProductBounds(a: real, b: real)
    requires 0.0 <= a <= 1.0 && 0.0 <= b <= 1.0
    ensures 0.0 <= a * b <= b
  {
  }

  lemma ScaleBounds(v: real, a: real, w: real)
    requires 0.0 <= v && 0.0 <= w <= a <= 1.0
    ensures 0.0 <= v * w <= v * a <= v
  {
  }

  /** Whatever the sector, the table puts v in one channel and p in another. */
  lemma SectorExtremes(k: int, v: real, p: real, q: real, t: real)
    requires 0 <= k < 6
    requires p <= q <= v && p <= t <= v
    ensures var u := SectorRgb(k, v, p, q, t);
      && p <= u.r <= v && p <= u.g <= v && p <= u.b <= v
      && Max3(u.r, u.g, u.b) == v
      && Min3(u.r, u.g, u.b) == p
  {
  }

  lemma ScaleExtremes(u: Rgb)
    ensures var c := Scale255(u);
      && Max3(c.r, c.g, c.b) == 255.0 * Max3(u.r, u.g, u.b)
      && Min3(c.r, c.g, c.b) == 255.0 * Min3(u.r, u.g, u.b)
  {
  }

  /** i is a non-negative sextant index and f its fractional remainder. */
  lemma SextantSplit(h: real)
    requires 0.0 <= h
    ensures 0 <= (h * 6.0).Floor
    ensures 0.0 <= h * 6.0 - (h * 6.0).Floor as real < 1.0
  {
  }

  /** p, q and t all lie in [p, v], and p is non-negative. */
  lemma PqtBounds(v: real, s: real, f: real)
    requires 0.0 <= s <= 1.0 && 0.0 <= v && 0.0 <= f <= 1.0
    ensures 0.0 <= v * (1.0 - s)
    ensures v * (1.0 - s) <= v * (1.0 - f * s) <= v
    ensures v * (1.0 - s) <= v * (1.0 - (1.0 - f) * s) <= v
  {
    ProductBounds(f, s);
    ProductBounds(1.0 - f, s);
    ScaleBounds(v, 1.0 - f * s, 1.0 - s);
    ScaleBounds(v, 1.0 - (1.0 - f) * s, 1.0 - s);
  }

  /**
    UnitOfHsv reads its result from the table at sector k = floor(6 h) mod 6
    with p, q and t as the source defines them from the remainder f.
   */
  lemma UnitOfHsvTable(x: Hsv) returns (k: int, f: real)
    requires 0.0 <= x.h
    ensures 0 <= k < 6 && 0.0 <= f < 1.0
    ensures k == (x.h * 6.0).Floor % 6 && f == x.h * 6.0 - (x.h * 6.0).Floor as real
    ensures UnitOfHsv(x) == SectorRgb(k, x.v, x.v * (1.0 - x.s), x.v * (1.0 - f * x.s), x.v * (1.0 - (1.0 - f) * x.s))
  {
    SextantSplit(x.h);
    k := (x.h * 6.0).Floor % 6;
    f := x.h * 6.0 - (x.h * 6.0).Floor as real;
  }

  /** p, q and t as the source computes them from v, s and f, with their order. */
  lemma PqtValues(v: real, s: real, f: real) returns (p: real, q: real, t: real)
    requires 0.0 <= s <= 1.0 && 0.0 <= v && 0.0 <= f <= 1.0
    ensures p == v * (1.0 - s) && q == v * (1.0 - f * s) && t == v * (1.0 - (1.0 - f) * s)
    ensures 0.0 <= p <= q <= v && p <= t <= v
  {
    p, q, t := v * (1.0 - s), v * (1.0 - f * s), v * (1.0 - (1.0 - f) * s);
    PqtBounds(v, s, f);
  }

  /** UnitOfHsv reads its result from the table at some sector, with p <= q, t <= v. */
  lemma UnitOfHsvPqt(x: Hsv) returns (k: int, p: real, q: real, t: real)
    requires 0.0 <= x.h
    requires 0.0 <= x.s <= 1.0 && 0.0 <= x.v
    ensures 0 <= k < 6
    ensures 0.0 <= p <= q <= x.v && p <= t <= x.v && p == x.v * (1.0 - x.s)
    ensures UnitOfHsv(x) == SectorRgb(k, x.v, p, q, t)
  {
    var f;
    k, f := UnitOfHsvTable(x);
    p, q, t := PqtValues(x.v, x.s, f);
  }

  /** The unscaled channels lie between p = v (1 - s) and v, and reach both. */
  lemma UnitOfHsvBounds(x: Hsv)
    requires 0.0 <= x.h
    requires 0.0 <= x.s <= 1.0 && 0.0 <= x.v
    ensures var u := UnitOfHsv(x);
      var p := x.v * (1.0 - x.s);
      && 0.0 <= p
      && p <= u.r <= x.v && p <= u.g <= x.v && p <= u.b <= x.v
      && Max3(u.r, u.g, u.b) == x.v
      && Min3(u.r, u.g, u.b) == p
  {
    var k, p, q, t := UnitOfHsvPqt(x);
    SectorExtremes(k, x.v, p, q, t);
  }

  /**
    For a non-negative hue and s, v in [0, 1], every output channel lies in
    [0, 255 v]; the largest channel is exactly 255 v and the smallest is
    exactly 255 v (1 - s).
   */
  lemma HsvToRgbBounds(x: Hsv)
    requires 0.0 <= x.h
    requires 0.0 <= x.s <= 1.0 && 0.0 <= x.v <= 1.0
    ensures var c := HsvToRgb(x);
      && InGamut(c)
      && 0.0 <= c.r <= 255.0 * x.v
      && 0.0 <= c.g <= 255.0 * x.v
      && 0.0 <= c.b <= 255.0 * x.v
      && Max3(c.r, c.g, c.b) == 255.0 * x.v
      && Min3(c.r, c.g, c.b) == 255.0 * x.v * (1.0 - x.s)
  {
    UnitOfHsvBounds(x);
    ScaleExtremes(UnitOfHsv(x));
  }

  /** With zero saturation all three channels equal 255 v, whatever the hue. */
  lemma HsvToRgbGrey(x: Hsv)
    requires 0.0 <= x.h && x.s == 0.0
    ensures HsvToRgb(x) == Rgb(255.0 * x.v, 255.0 * x.v, 255.0 * x.v)
  {
  }

  // ---------------------------------------------------------------------
  // Round trip
  // ---------------------------------------------------------------------

  lemma SaturationProducts(mx: real, d: real, f: real)
    requires mx != 0.0
    ensures mx * (1.0 - d / mx) == mx - d
    ensures mx * (1.0 - f * (d / mx)) == mx - f * d
    ensures mx * (1.0 - (1.0 - f) * (d / mx)) == mx - d + f * d
  {
    var s := d / mx;
    assert mx * s == d;
    calc {
      mx * (1.0 - f * s);
      mx - f * (mx * s);
      mx - f * d;
    }
    calc {
      mx * (1.0 - (1.0 - f) * s);
      mx - (1.0 - f) * (mx * s);
    }
  }

  /** For a chromatic non-negative triple, the HSV triple in terms of the sextant hue and the spread. */
  lemma HsvOfUnitChromatic(u: Rgb) returns (hh: real)
    requires NonNegative(u)
    requires Max3(u.r, u.g, u.b) != Min3(u.r, u.g, u.b)
    ensures var mx := Max3(u.r, u.g, u.b);
      var d := mx - Min3(u.r, u.g, u.b);
      && 0.0 < mx
      && hh == SextantHue(Dominant(u), u, d)
      && 0.0 <= hh < 6.0
      && HsvOfUnit(u) == Hsv(hh / 6.0, d / mx, mx)
  {
    SextantHueRange(u);
    hh := SextantHue(Dominant(u), u, Max3(u.r, u.g, u.b) - Min3(u.r, u.g, u.b));
  }

  /**
    Reconstructing with saturation (mx - mn) / mx and value mx picks from
    the table at sector k = floor(hh), with p equal to mn and q, t equal to
    mx and mn moved by fd = f (mx - mn).
   */
  lemma UnitOfHsvSpread(hh: real, mx: real, mn: real) returns (k: int, fd: real)
    requires 0.0 <= hh < 6.0 && 0.0 < mx
    ensures k == hh.Floor && 0 <= k < 6
    ensures fd == (hh - k as real) * (mx - mn)
    ensures UnitOfHsv(Hsv(hh / 6.0, (mx - mn) / mx, mx)) == SectorRgb(k, mx, mn, mx - fd, mn + fd)
  {
    var d := mx - mn;
    var x := Hsv(hh / 6.0, d / mx, mx);
    var k0, f := UnitOfHsvTable(x);
    assert x.h * 6.0 == hh;
    k := hh.Floor;
    fd := (hh - k as real) * d;
    SaturationProducts(mx, d, f);
  }

  /**
    The sector and the offset f d of a sextant hue x / d + base, for x in
    [-d, d]: below zero it falls in the sector before base, from zero up to
    d exclusive in sector base, and at d in the sector after it.
   */
  lemma SextantOffset(x: real, d: real, base: int) returns (k: int, fd: real)
    requires 0.0 < d && -d <= x <= d
    ensures var hh := x / d + base as real;
      && k == hh.Floor
      && fd == (hh - k as real) * d
      && (x < 0.0 ==> k == base - 1 && fd == x + d)
      && (0.0 <= x < d ==> k == base && fd == x)
      && (x == d ==> k == base + 1 && fd == 0.0)
  {
    var a := x / d;
    QuotientBounds(x, d);
    assert a * d == x;
    if x < 0.0 {
      k, fd := base - 1, x + d;
      assert (a + 1.0) * d == x + d;
    } else if x < d {
      k, fd := base, x;
    } else {
      k, fd := base + 1, 0.0;
    }
  }

  /** Red is the maximum: the table entry for the sextant hue gives back the triple. */
  lemma RedRecovered(u: Rgb) returns (k: int, fd: real)
    requires u.r == Max3(u.r, u.g, u.b) && u.r != Min3(u.r, u.g, u.b)
    ensures var mx := Max3(u.r, u.g, u.b);
      var mn := Min3(u.r, u.g, u.b);
      var hh := SextantHue(Red, u, mx - mn);
      && k == hh.Floor && 0 <= k < 6
      && fd == (hh - k as real) * (mx - mn)
      && SectorRgb(k, mx, mn, mx - fd, mn + fd) == u
  {
    var d := u.r - Min3(u.r, u.g, u.b);
    k, fd := SextantOffset(u.g - u.b, d, if u.g < u.b then 6 else 0);
  }

  /** Green is the first maximum: the table entry for the sextant hue gives back the triple. */
  lemma GreenRecovered(u: Rgb) returns (k: int, fd: real)
    requires u.r < u.g == Max3(u.r, u.g, u.b)
    ensures var mx := Max3(u.r, u.g, u.b);
      var mn := Min3(u.r, u.g, u.b);
      var hh := SextantHue(Green, u, mx - mn);
      && k == hh.Floor && 0 <= k < 6
      && fd == (hh - k as real) * (mx - mn)
      && SectorRgb(k, mx, mn, mx - fd, mn + fd) == u
  {
    var d := u.g - Min3(u.r, u.g, u.b);
    k, fd := SextantOffset(u.b - u.r, d, 2);
  }

  /** Blue is the only maximum: the table entry for the sextant hue gives back the triple. */
  lemma BlueRecovered(u: Rgb) returns (k: int, fd: real)
    requires u.r < u.b && u.g < u.b && u.b == Max3(u.r, u.g, u.b)
    ensures var mx := Max3(u.r, u.g, u.b);
      var mn := Min3(u.r, u.g, u.b);
      var hh := SextantHue(Blue, u, mx - mn);
      && k == hh.Floor && 0 <= k < 6
      && fd == (hh - k as real) * (mx - mn)
      && SectorRgb(k, mx, mn, mx - fd, mn + fd) == u
  {
    var d := u.b - Min3(u.r, u.g, u.b);
    k, fd := SextantOffset(u.r - u.g, d, 4);
  }

  /** An achromatic triple survives the round trip. */
  lemma GreyUnitRoundTrip(u: Rgb)
    requires NonNegative(u)
    requires Max3(u.r, u.g, u.b) == Min3(u.r, u.g, u.b)
    ensures UnitOfHsv(HsvOfUnit(u)) == u
  {
    var mx := Max3(u.r, u.g, u.b);
    assert HsvOfUnit(u) == Hsv(0.0, 0.0, mx);
    var k, f := UnitOfHsvTable(Hsv(0.0, 0.0, mx));
  }

  /**
    Along the branch of the dominant channel ch, the sector k and offset fd
    of the sextant hue give the triple back from the table.
   */
  lemma ChannelRecovered(u: Rgb, ch: Channel) returns (k: int, fd: real)
    requires Max3(u.r, u.g, u.b) != Min3(u.r, u.g, u.b)
    requires Dominant(u) == ch
    ensures var mx := Max3(u.r, u.g, u.b);
      var mn := Min3(u.r, u.g, u.b);
      var hh := SextantHue(ch, u, mx - mn);
      && k == hh.Floor && 0 <= k < 6
      && fd == (hh - k as real) * (mx - mn)
      && SectorRgb(k, mx, mn, mx - fd, mn + fd) == u
  {
    match ch
    case Red => k, fd := RedRecovered(u);
    case Green => k, fd := GreenRecovered(u);
    case Blue => k, fd := BlueRecovered(u);
  }

  /**
    The round trip from its two halves: x has sextant hue hh, saturation
    (mx - mn) / mx and value mx, and the table entry for sector floor(hh)
    gives back u.
   */
  lemma RoundTripFromParts(x: Hsv, u: Rgb, hh: real, k: int, fd: real, mx: real, mn: real)
    requires 0.0 <= hh < 6.0 && 0.0 < mx
    requires x == Hsv(hh / 6.0, (mx - mn) / mx, mx)
    requires k == hh.Floor && 0 <= k < 6
    requires fd == (hh - k as real) * (mx - mn)
    requires SectorRgb(k, mx, mn, mx - fd, mn + fd) == u
    ensures UnitOfHsv(x) == u
  {
    var k', fd' := UnitOfHsvSpread(hh, mx, mn);
  }

  /** A chromatic triple survives the round trip, whichever channel dominates. */
  lemma ChromaticUnitRoundTrip(u: Rgb)
    requires NonNegative(u)
    requires Max3(u.r, u.g, u.b) != Min3(u.r, u.g, u.b)
    ensures UnitOfHsv(HsvOfUnit(u)) == u
  {
    var mx, mn := Max3(u.r, u.g, u.b), Min3(u.r, u.g, u.b);
    var hh := HsvOfUnitChromatic(u);
    var k, fd := ChannelRecovered(u, Dominant(u));
    RoundTripFromParts(HsvOfUnit(u), u, hh, k, fd, mx, mn);
  }

  /** The round trip in [0, 1] units, for non-negative channels. */
  lemma UnitRoundTrip(u: Rgb)
    requires NonNegative(u)
    ensures UnitOfHsv(HsvOfUnit(u)) == u
  {
    if Max3(u.r, u.g, u.b) == Min3(u.r, u.g, u.b) {
      GreyUnitRoundTrip(u);
    } else {
      ChromaticUnitRoundTrip(u);
    }
  }

  /**
    hsvToRgb undoes rgbToHsv exactly for every non-negative triple (in
    particular every triple in [0, 255]), including triples where two
    channels share the maximum.
   */
  lemma RoundTrip(c: Rgb)
    requires NonNegative(c)
    ensures HsvToRgb(RgbToHsv(c)) == c
  {
    UnitRoundTrip(Normalize(c));
  }
}
