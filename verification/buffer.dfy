/**
  `adjustColors`: the walk over an interleaved RGBA buffer (red, green,
  blue, alpha, red, ...) that rewrites the colour of every pixel in place
  and leaves every alpha entry alone.

  The walk is stated for any per-pixel colour step and then instantiated
  with the adjustment of the Pixel module. The buffer is a sequence of
  reals: each entry written is the exact value computed for it (the
  clamping and rounding of the browser's byte store is not modelled).
 */
module Buffer {
  import opened ColorSpace
  import opened Pixel
  import Intensity

  /** Every entry of the buffer lies in [0, 255], as in an image's byte store. */
  predicate BufferInGamut(data: seq<real>) {
    forall i :: 0 <= i < |data| ==> 0.0 <= data[i] <= 255.0
  }

  /** Pixel j: the four entries starting at 4 j. */
  function PixelAt(data: seq<real>, j: int): (px: seq<real>)
    requires 0 <= j && 4 * j + 4 <= |data|
    ensures |px| == 4
  {
    data[4 * j .. 4 * j + 4]
  }

  /** The colour of a four-entry pixel. */
  function ColourOf(px: seq<real>): Rgb
    requires |px| == 4
  {
    Rgb(px[0], px[1], px[2])
  }

  /** A pixel after the step: its colour replaced by f of its colour, its alpha kept. */
  function StepQuad(px: seq<real>, f: Rgb -> Rgb): (q: seq<real>)
    requires |px| == 4
    ensures |q| == 4 && q[3] == px[3]
    ensures ColourOf(q) == f(ColourOf(px))
  {
    var o := f(ColourOf(px));
    [o.r, o.g, o.b, px[3]]
  }

  /**
    The buffer after the walk with step f, defined pixel by pixel from the
    end. It has the length of the input.
   */
  function MapPixels(data: seq<real>, f: Rgb -> Rgb): (out: seq<real>)
    requires |data| % 4 == 0
    ensures |out| == |data|
    decreases |data|
  {
    if |data| == 0 then []
    else
      var n := |data| - 4;
      MapPixels(data[..n], f) + StepQuad(data[n..], f)
  }

  /** Pixel j of the output is pixel j of the input after the step. */
  lemma {:induction false} MapPixelsAt(data: seq<real>, f: Rgb -> Rgb, j: int)
    requires |data| % 4 == 0
    requires 0 <= j && 4 * j + 4 <= |data|
    ensures PixelAt(MapPixels(data, f), j) == StepQuad(PixelAt(data, j), f)
    decreases |data|
  {
    var n := |data| - 4;
    var prefix := MapPixels(data[..n], f);
    var last := StepQuad(data[n..], f);
    assert MapPixels(data, f) == prefix + last;
    assert data == data[..n] + data[n..];
    if 4 * j == n {
      PixelAtLast(prefix, last, j);
      PixelAtLast(data[..n], data[n..], j);
    } else {
      MapPixelsAt(data[..n], f, j);
      PixelAtPrefix(prefix, last, j);
      PixelAtPrefix(data[..n], data[n..], j);
    }
  }

  /** A pixel that lies in the first part of a concatenation is that part's pixel. */
  lemma PixelAtPrefix(a: seq<real>, b: seq<real>, j: int)
    requires 0 <= j && 4 * j + 4 <= |a|
    ensures PixelAt(a + b, j) == PixelAt(a, j)
  {
    assert (a + b)[4 * j .. 4 * j + 4] == a[4 * j .. 4 * j + 4];
  }

  /** The pixel right after the first part of a concatenation is the four-entry second part. */
  lemma PixelAtLast(a: seq<real>, b: seq<real>, j: int)
    requires 0 <= j && 4 * j == |a| && |b| == 4
    ensures PixelAt(a + b, j) == b
  {
    assert (a + b)[4 * j .. 4 * j + 4] == b;
  }

  /** The walk writes no alpha entry: every index 4 j + 3 keeps its value. */
  lemma MapPixelsAlpha(data: seq<real>, f: Rgb -> Rgb)
    requires |data| % 4 == 0
    ensures var out := MapPixels(data, f);
      forall j :: 0 <= j && 4 * j + 4 <= |data| ==> out[4 * j + 3] == data[4 * j + 3]
  {
    forall j | 0 <= j && 4 * j + 4 <= |data|
      ensures MapPixels(data, f)[4 * j + 3] == data[4 * j + 3]
    {
      MapPixelsAt(data, f, j);
      AlphaOfPixel(MapPixels(data, f), j);
      AlphaOfPixel(data, j);
    }
  }

  /** The alpha entry of pixel j is entry 4 j + 3 of the buffer. */
  lemma AlphaOfPixel(data: seq<real>, j: int)
    requires 0 <= j && 4 * j + 4 <= |data|
    ensures PixelAt(data, j)[3] == data[4 * j + 3]
  {
  }

  /** A step that keeps colours in [0, 255] keeps a buffer in [0, 255]. */
  lemma {:induction false} MapPixelsInGamut(data: seq<real>, f: Rgb -> Rgb)
    requires |data| % 4 == 0 && BufferInGamut(data)
    requires forall c :: InGamut(c) ==> InGamut(f(c))
    ensures BufferInGamut(MapPixels(data, f))
    decreases |data|
  {
    if |data| > 0 {
      var n := |data| - 4;
      MapPixelsInGamut(data[..n], f);
      var px := data[n..];
      assert InGamut(ColourOf(px));
      var q := StepQuad(px, f);
      var out := MapPixels(data, f);
      assert out == MapPixels(data[..n], f) + q;
      forall i | 0 <= i < |out|
        ensures 0.0 <= out[i] <= 255.0
      {
        if i >= n {
          assert out[i] == q[i - n];
        }
      }
    }
  }

  /** A step that fixes every colour in [0, 255] fixes every buffer in [0, 255]. */
  lemma {:induction false} MapPixelsIdentity(data: seq<real>, f: Rgb -> Rgb)
    requires |data| % 4 == 0 && BufferInGamut(data)
    requires forall c :: InGamut(c) ==> f(c) == c
    ensures MapPixels(data, f) == data
    decreases |data|
  {
    if |data| > 0 {
      var n := |data| - 4;
      MapPixelsIdentity(data[..n], f);
      var px := data[n..];
      assert InGamut(ColourOf(px));
      assert StepQuad(px, f) == px;
      assert data[..n] + px == data;
    }
  }

  /** A pixel whose colour the step fixes comes out as it went in. */
  lemma MapPixelsFixed(data: seq<real>, f: Rgb -> Rgb, j: int)
    requires |data| % 4 == 0
    requires 0 <= j && 4 * j + 4 <= |data|
    requires f(ColourOf(PixelAt(data, j))) == ColourOf(PixelAt(data, j))
    ensures PixelAt(MapPixels(data, f), j) == PixelAt(data, j)
  {
    MapPixelsAt(data, f, j);
    StepQuadFixed(PixelAt(data, j), f);
  }

  /** A pixel whose colour the step fixes is its own step. */
  lemma StepQuadFixed(px: seq<real>, f: Rgb -> Rgb)
    requires |px| == 4 && f(ColourOf(px)) == ColourOf(px)
    ensures StepQuad(px, f) == px
  {
    assert px == [px[0], px[1], px[2], px[3]];
  }

  /** Walking one more pixel appends that pixel after the step. */
  lemma MapPixelsExtend(data: seq<real>, f: Rgb -> Rgb, p: int)
    requires 0 <= p && 4 * p + 4 <= |data|
    ensures var i := 4 * p;
      MapPixels(data[..i + 4], f) == MapPixels(data[..i], f) + StepQuad(data[i..i + 4], f)
  {
    var i := 4 * p;
    assert data[..i + 4][..i] == data[..i];
    assert data[..i + 4][i..] == data[i..i + 4];
  }

  /**
    The walk of `adjustColors` over the buffer in place, for a step f: for
    each pixel it reads the three colour entries, applies f, and writes the
    three results back; the alpha entry is never written.
   */
  method MapPixelsInPlace(data: array<real>, f: Rgb -> Rgb)
    requires data.Length % 4 == 0
    modifies data
    ensures data[..] == MapPixels(old(data[..]), f)
  {
    ghost var orig := data[..];
    ghost var m := data.Length / 4;
    var i := 0;
    ghost var p := 0;
    while i < data.Length
      invariant 0 <= p <= m && i == 4 * p && data.Length == 4 * m
      invariant data[..] == Walked(orig, f, p)
      decreases data.Length - i
    {
      ghost var before := data[..];
      PixelFits(p, m);
      var o := f(Rgb(data[i], data[i + 1], data[i + 2]));
      data[i] := o.r;
      data[i + 1] := o.g;
      data[i + 2] := o.b;
      assert data[..] == before[i := o.r][i + 1 := o.g][i + 2 := o.b];
      WalkStep(orig, f, p);
      i, p := i + 4, p + 1;
    }
    assert orig[..i] == orig;
  }

  /** The buffer once the walk has done its first p pixels. */
  function Walked(orig: seq<real>, f: Rgb -> Rgb, p: int): (w: seq<real>)
    requires 0 <= p && 4 * p <= |orig|
    ensures |w| == |orig|
  {
    WholePixels(p);
    MapPixels(orig[..4 * p], f) + orig[4 * p..]
  }

  /** One more pixel of the walk: three colour entries overwritten by the step's result. */
  lemma WalkStep(orig: seq<real>, f: Rgb -> Rgb, p: int)
    requires 0 <= p && 4 * p + 4 <= |orig|
    ensures var w := Walked(orig, f, p);
      var i := 4 * p;
      var o := f(Rgb(w[i], w[i + 1], w[i + 2]));
      w[i := o.r][i + 1 := o.g][i + 2 := o.b] == Walked(orig, f, p + 1)
  {
    var i := 4 * p;
    WholePixels(p);
    var done := MapPixels(orig[..i], f);
    assert Walked(orig, f, p) == done + orig[i..];
    WriteColour(done, orig[i..], f);
    MapPixelsExtend(orig, f, p);
    assert orig[i..][..4] == orig[i..i + 4];
    assert orig[i..][4..] == orig[i + 4..];
  }

  /** Short of m whole pixels there is room for one more. */
  lemma PixelFits(p: int, m: int)
    requires 4 * p < 4 * m
    ensures 4 * p + 4 <= 4 * m
  {
  }

  /** A prefix of p whole pixels is a whole number of pixels. */
  lemma WholePixels(p: int)
    ensures (4 * p) % 4 == 0
  {
  }

  /** Writing the stepped colour over the first pixel after `done` gives that pixel after the step. */
  lemma WriteColour(done: seq<real>, rest: seq<real>, f: Rgb -> Rgb)
    requires 4 <= |rest|
    ensures var n := |done|;
      var o := f(ColourOf(rest[..4]));
      (done + rest)[n := o.r][n + 1 := o.g][n + 2 := o.b] == done + StepQuad(rest[..4], f) + rest[4..]
  {
    var n := |done|;
    var o := f(ColourOf(rest[..4]));
    var lhs := (done + rest)[n := o.r][n + 1 := o.g][n + 2 := o.b];
    var rhs := done + StepQuad(rest[..4], f) + rest[4..];
    assert |lhs| == |rhs|;
    forall i | 0 <= i < |lhs|
      ensures lhs[i] == rhs[i]
    {
      if i >= n + 4 {
        assert rhs[i] == rest[4..][i - n - 4];
      }
    }
  }

  /**
    The per-pixel step of `adjustColors` for factor k, as one named function
    value so that the recursive definition and the loop refer to the same
    step. Its ensures only unfolds the lambda for callers.
   */
  function AdjustStep(k: real): (f: Rgb -> Rgb)
    ensures forall c :: f(c) == AdjustPixel(c, k)
  {
    c => AdjustPixel(c, k)
  }

  /** The buffer after `adjustColors` with factor k. */
  function AdjustedBuffer(data: seq<real>, k: real): (out: seq<real>)
    requires |data| % 4 == 0
    ensures |out| == |data|
  {
    MapPixels(data, AdjustStep(k))
  }

  /** `adjustColors` keeps the length of the buffer and writes no alpha entry. */
  lemma AdjustedBufferAlpha(data: seq<real>, k: real)
    requires |data| % 4 == 0
    ensures var out := AdjustedBuffer(data, k);
      && |out| == |data|
      && forall j :: 0 <= j && 4 * j + 4 <= |data| ==> out[4 * j + 3] == data[4 * j + 3]
  {
    MapPixelsAlpha(data, AdjustStep(k));
  }

  /** Pixel j of the adjusted buffer: colour adjusted, alpha kept. */
  lemma AdjustedBufferPixels(data: seq<real>, k: real, j: int)
    requires |data| % 4 == 0
    requires 0 <= j && 4 * j + 4 <= |data|
    ensures var q := PixelAt(AdjustedBuffer(data, k), j);
      var px := PixelAt(data, j);
      && ColourOf(q) == AdjustPixel(ColourOf(px), k)
      && q[3] == px[3]
  {
    MapPixelsAt(data, AdjustStep(k), j);
  }

  /** For a factor of at least 0, a buffer in [0, 255] stays in [0, 255]. */
  lemma AdjustedBufferInGamut(data: seq<real>, k: real)
    requires |data| % 4 == 0 && BufferInGamut(data) && 0.0 <= k
    ensures BufferInGamut(AdjustedBuffer(data, k))
  {
    var f := AdjustStep(k);
    forall c | InGamut(c)
      ensures InGamut(f(c))
    {
      AdjustPixelInGamut(c, k);
    }
    MapPixelsInGamut(data, f);
  }

  /** A factor of 1 (slider at 0) leaves a buffer in [0, 255] exactly as it was. */
  lemma AdjustedBufferNeutral(data: seq<real>)
    requires |data| % 4 == 0 && BufferInGamut(data)
    ensures AdjustedBuffer(data, 1.0) == data
  {
    var f := AdjustStep(1.0);
    forall c | InGamut(c)
      ensures f(c) == c
    {
      AdjustPixelNeutral(c);
    }
    MapPixelsIdentity(data, f);
  }

  /** A black pixel stays black, with its alpha, under every factor. */
  lemma BlackPixelKept(data: seq<real>, k: real, j: int)
    requires |data| % 4 == 0
    requires 0 <= j && 4 * j + 4 <= |data|
    requires ColourOf(PixelAt(data, j)) == Rgb(0.0, 0.0, 0.0)
    ensures PixelAt(AdjustedBuffer(data, k), j) == PixelAt(data, j)
  {
    AdjustPixelBlack(ColourOf(PixelAt(data, j)), k);
    MapPixelsFixed(data, AdjustStep(k), j);
  }

  /**
    `adjustColors(imageData, sliderValue)`: rewrites the buffer in place,
    pixel by pixel, to the adjusted buffer for the slider's factor.
   */
  method AdjustColors(data: array<real>, slider: real)
    requires data.Length % 4 == 0
    modifies data
    ensures data[..] == AdjustedBuffer(old(data[..]), Intensity.Factor(slider))
  {
    var k := Intensity.Factor(slider);
    MapPixelsInPlace(data, AdjustStep(k));
  }
}
