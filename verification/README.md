# Colour adjust: a Dafny model of the pixel pipeline

The colour-adjust editor brightens and saturates a picture. The user moves
a slider; the picture's RGBA buffer is walked pixel by pixel, and each pixel
goes through three steps:

1. its red, green and blue are multiplied by a factor derived from the
   slider and capped at 255;
2. the pixel is converted to HSV, and its saturation and value are
   multiplied by the same factor and capped at 1;
3. the pixel is converted back to RGB and written over the original
   colour, leaving alpha alone.

This project models that pipeline in `colorAdjust.js`: `rgbToHsv`,
`hsvToRgb`, the slider mapping and `adjustColors`. It proves ranges,
degenerate cases, the exact inverse relation between the two conversions,
that the first boost keeps the hue while it clips nothing (and can move
it when it does), and the buffer-level promises: the length is kept, alpha is never written,
the buffer stays in range, a slider at 0 changes nothing, and black stays
black.

All arithmetic is over Dafny's exact `real`, standing in for JavaScript
doubles. Every result is therefore a statement about exact arithmetic,
not about IEEE-754 rounding.

Modules:

- `ColorSpace` (colorspace.dfy) — the colour triples.
  - `Rgb` and `Hsv` triples, and `Math.max` / `Math.min`.
  - The dominant-channel choice of the hue `switch`, made a `Channel` value.
  - `rgbToHsv`, split into `Normalize` (the division by 255) and `HsvOfUnit`.
  - `hsvToRgb`, split into `UnitOfHsv` (the six-sector table) and `Scale255`.
- `ColorSpaceFacts` (colorspace_facts.dfy) — properties of the two conversions.
  - The range of each conversion, and the grey and black/white cases.
  - Hue does not depend on the tie-break between equal maxima.
  - The round trip `hsvToRgb(rgbToHsv(c)) == c`.
- `Scaling` (scaling.dfy) — multiplying all three channels by the same
  positive factor keeps hue and saturation and scales value.
- `Intensity` (intensity.dfy) — the slider-to-factor map and its inverse.
- `Pixel` (pixel.dfy) — the per-pixel step of `adjustColors` and its properties.
- `Buffer` (buffer.dfy) — the walk over the interleaved RGBA buffer.
  - The walk is stated once for an arbitrary per-pixel colour step
    (`MapPixels`, and the in-place loop `MapPixelsInPlace`).
  - It is then instantiated with the adjustment of `Pixel`: `AdjustedBuffer`
    and the method `AdjustColors`.

## Model

| member | source | states |
|---|---|---|
| ColorSpace.Max3 | colorAdjust.js:13 | `Math.max(r, g, b)` is at least each argument and equal to one of them |
| ColorSpace.Min3 | colorAdjust.js:14 | `Math.min(r, g, b)` is at most each argument and equal to one of them |
| ColorSpace.Dominant | colorAdjust.js:23-33 | the `switch (max)` picks a channel that holds the maximum. It skips a channel only if that channel is strictly below the maximum (red first, then green, then blue) |
| ColorSpace.Normalize | colorAdjust.js:10-12 | channels are in [0, 255] exactly when the normalised channels are in [0, 1] |
| ColorSpace.HsvOfUnit | colorAdjust.js:13-37 | v is the largest normalised channel. The hue is in [0, 1) for every input: the `+ 6` for a red maximum with green below blue lifts the negative case. Equal channels give h = s = 0 |
| ColorSpace.RgbToHsv | colorAdjust.js:9-38 | the hue is in [0, 1) and 255 v is the largest input channel |
| ColorSpace.SextantHueRange | colorAdjust.js:23-33 | the branch value before the division by 6 is in [0, 6) |
| ColorSpace.SextantHue | colorAdjust.js:24-32 | the three branch values of the hue `switch`. Their range is carried by `ColorSpace.SextantHueRange`, and their agreement on ties by `ColorSpaceFacts.HueTieIndependent` |
| ColorSpace.SectorRgb | colorAdjust.js:50-69 | the six-case table of `hsvToRgb`. Its bounds are carried by `ColorSpaceFacts.UnitOfHsvBounds`, and its inverse relation to the hue branches by `ColorSpaceFacts.ChannelRecovered` |
| ColorSpace.UnitOfHsv | colorAdjust.js:44-69 | `hsvToRgb` before the final scaling. Its bounds are carried by `ColorSpaceFacts.UnitOfHsvBounds`, and its inverse relation to `HsvOfUnit` by `ColorSpaceFacts.UnitRoundTrip` |
| ColorSpace.Scale255 | colorAdjust.js:71 | the final multiplication by 255 is undone by the normalisation of `rgbToHsv` |
| ColorSpace.HsvToRgb | colorAdjust.js:41-72 | `hsvToRgb(h, s, v)`. Its range is carried by `ColorSpaceFacts.HsvToRgbBounds` and `ColorSpaceFacts.HsvToRgbGrey`, and its inverse relation to `rgbToHsv` by `ColorSpaceFacts.RoundTrip` |
| ColorSpaceFacts.RgbToHsvRange | colorAdjust.js:9-37 | for channels in [0, 255]: s and v are in [0, 1], v = max / 255 and h is in [0, 1) |
| ColorSpaceFacts.RgbToHsvAchromatic | colorAdjust.js:17-21 | for non-negative channels, s = 0 exactly when r = g = b, and then h = 0 |
| ColorSpaceFacts.RgbToHsvBlackWhite | colorAdjust.js:9-37 | black maps to (0, 0, 0) and white to (0, 0, 1) |
| ColorSpaceFacts.HueTieIndependent | colorAdjust.js:23-33 | when channels share the maximum, every one of their branches gives the same hue, so the tie-break does not matter |
| ColorSpaceFacts.UnitOfHsvTable | colorAdjust.js:44-50 | the sector `i % 6` lies in [0, 6) and the remainder f = 6h − floor(6h) in [0, 1), so for h ≥ 0 every input reaches one of the six cases |
| ColorSpaceFacts.UnitOfHsvBounds | colorAdjust.js:44-70 | for s in [0, 1] and v ≥ 0, the unscaled channels lie in [v (1 - s), v] and reach both ends |
| ColorSpaceFacts.HsvToRgbBounds | colorAdjust.js:41-72 | for s, v in [0, 1], every channel is in [0, 255 v] ⊆ [0, 255]. The largest is exactly 255 v and the smallest exactly 255 v (1 - s) |
| ColorSpaceFacts.HsvToRgbGrey | colorAdjust.js:44-71 | with s = 0 all three channels equal 255 v, whatever the hue |
| ColorSpaceFacts.SextantOffset | colorAdjust.js:44-45 | for a branch value x / d + base with x in [-d, d], gives the sector and offset: base - 1 below zero, base up to d, base + 1 at d |
| ColorSpaceFacts.ChannelRecovered | colorAdjust.js:23-69 | along the dominant channel's branch, the table entry at floor of the sextant hue gives back the triple |
| ColorSpaceFacts.UnitRoundTrip | colorAdjust.js:13-70 | the table undoes the HSV computation for every non-negative normalised triple |
| ColorSpaceFacts.RoundTrip | colorAdjust.js:9-72 | `hsvToRgb(rgbToHsv(c)) == c` exactly for every non-negative triple, ties between equal maxima included |
| Scaling.Max3Scale | colorAdjust.js:13 | the largest of three channels each multiplied by k > 0 is k times the largest |
| Scaling.Min3Scale | colorAdjust.js:14 | the smallest of three channels each multiplied by k > 0 is k times the smallest |
| Scaling.DominantScale | colorAdjust.js:23-33 | multiplying by k > 0 does not change which channel the `switch (max)` selects |
| Scaling.SextantHueScale | colorAdjust.js:23-33 | each branch value is unchanged when the channels and the spread d are multiplied by the same k > 0 |
| Scaling.HueOfShape | colorAdjust.js:17-35 | two triples with the same selected channel, both grey or both not, and the same branch value have the same hue |
| Scaling.SaturationOfShape | colorAdjust.js:13-18 | two triples with max = 0 together and the same d / max have the same saturation |
| Scaling.HsvOfUnitScale | colorAdjust.js:13-37 | for a normalised triple multiplied by k > 0: same h and s, and k times v |
| Scaling.RgbToHsvScale | colorAdjust.js:9-38 | `rgbToHsv` of a colour multiplied by k > 0 has the same h and s and k times the v |
| Intensity.Factor | colorAdjust.js:77-78 | the factor k satisfies 200 (k - 1) = slider. Readings ≥ 0 give exactly the factors ≥ 1, and readings in [0, 100] exactly the factors in [1, 1.5] |
| Intensity.FactorInverse | colorAdjust.js:78 | the map is a bijection on the reals, with `SliderOf` as its inverse. No reading is clamped |
| Intensity.FactorMonotone | colorAdjust.js:78 | a larger reading gives a larger factor, and only a larger one does |
| Intensity.FactorSamples | colorAdjust.js:77-78 | readings 0, 50 and 100 give 1.0, 1.25 and 1.5 |
| Pixel.Amplify | colorAdjust.js:87-96 | `Math.min(cap, x * k)` never exceeds the cap and is non-negative for non-negative inputs. For k ≥ 1 it does not fall below an x already in [0, cap]; for k = 1 it leaves such an x as it is |
| Pixel.Boosted | colorAdjust.js:87-89 | the boosted channels are at most 255. They stay in [0, 255] for k ≥ 0 and are unchanged for k = 1 |
| Pixel.BoostedHsv | colorAdjust.js:92-96 | the hue is that of the boosted colour; s and v are capped at 1 |
| Pixel.AdjustPixel | colorAdjust.js:82-99 | the new colour of one pixel. Its properties are carried by `Pixel.AdjustPixelInGamut`, `Pixel.AdjustPixelNeutral`, `Pixel.AdjustPixelBlack` and `Pixel.AdjustPixelHueKept` |
| Pixel.AdjustPixelInGamut | colorAdjust.js:87-99 | for k ≥ 0, a colour in [0, 255] is adjusted to a colour in [0, 255] |
| Pixel.AdjustPixelNeverDarker | colorAdjust.js:87-99 | for k ≥ 1, the largest channel of the adjusted colour is at least that of the original |
| Pixel.AdjustPixelBlack | colorAdjust.js:82-99 | black stays black for every factor |
| Pixel.AdjustPixelNeutral | colorAdjust.js:82-99 | with factor 1 every colour in [0, 255] comes back unchanged |
| Pixel.AdjustPixelExample | colorAdjust.js:82-99 | (100, 150, 200) at factor 1.5 becomes (97.5, 210, 255) |
| Pixel.BoostUnclipped | colorAdjust.js:87-89 | while k times the largest channel is at most 255, the three `Math.min(255, x * k)` are plain multiplications |
| Pixel.AdjustPixelHueKept | colorAdjust.js:87-96 | when the first boost clips nothing, the boosted HSV has the original hue, the original s boosted once and the original v boosted twice |
| Pixel.AdjustPixelHueDrift | colorAdjust.js:87-96 | when the first boost clips, the hue can move: (100, 150, 200) has hue 7/12, but at factor 1.5 its boosted HSV has hue 23/42 |
| Buffer.MapPixels | colorAdjust.js:80-105 | the walk keeps the buffer length |
| Buffer.MapPixelsAt | colorAdjust.js:80-105 | pixel j of the output is pixel j of the input, with its colour stepped and its alpha kept |
| Buffer.MapPixelsAlpha | colorAdjust.js:80-105 | for every pixel j, entry 4 j + 3 (its alpha) keeps its value |
| Buffer.MapPixelsInGamut | colorAdjust.js:80-105 | a step that keeps colours in [0, 255] keeps the whole buffer in [0, 255] |
| Buffer.MapPixelsIdentity | colorAdjust.js:80-105 | a step that fixes every colour in [0, 255] fixes every buffer in [0, 255] |
| Buffer.MapPixelsFixed | colorAdjust.js:80-105 | a pixel whose colour the step fixes comes out as it went in |
| Buffer.MapPixelsInPlace | colorAdjust.js:80-105 | the in-place loop leaves exactly the walked buffer |
| Buffer.AdjustedBuffer | colorAdjust.js:80-105 | the buffer after `adjustColors` keeps its length. Its contents are carried by `Buffer.AdjustedBufferPixels` and `Buffer.AdjustedBufferAlpha` |
| Buffer.AdjustedBufferPixels | colorAdjust.js:80-105 | pixel j of the adjusted buffer has the adjusted colour of pixel j and its alpha |
| Buffer.AdjustedBufferAlpha | colorAdjust.js:80-105 | `adjustColors` keeps the buffer length and never changes an alpha entry |
| Buffer.AdjustedBufferInGamut | colorAdjust.js:80-105 | for factor ≥ 0 (slider ≥ -200), a buffer in [0, 255] stays in [0, 255] |
| Buffer.AdjustedBufferNeutral | colorAdjust.js:78-105 | with the slider at 0 (factor 1), a buffer in [0, 255] is left exactly as it was |
| Buffer.BlackPixelKept | colorAdjust.js:80-105 | a black pixel keeps its colour and its alpha under every factor |
| Buffer.AdjustColors | colorAdjust.js:75-108 | after the call the buffer is the adjusted buffer of its old contents, for the slider's factor |

## Left out

- The DOM lookups, the `Image`, the `FileReader` upload, drawing on the canvas and reading back its pixels, and the event listeners (colorAdjust.js:1-6, 111-141). They are browser I/O with nothing to prove.
- IEEE-754 rounding. Every quantity is an exact real, so the round trip and the neutral-slider identity are exact here; in doubles they hold only up to rounding.
- The byte store of the buffer. The browser's `Uint8ClampedArray` rounds and clamps each value written at colorAdjust.js:102-104. Here the buffer holds the exact real written. The range lemmas show that every value written lies in [0, 255], so the store's clamping never triggers for factors ≥ 0.
- The coercion of the slider's string value to a number (colorAdjust.js:138 passes a string that line 78 coerces). The slider is a `real` parameter.
- NaN and infinite inputs.
- ColorSpace.HsvToRgb: requires a non-negative hue. For a negative hue, i = floor(6h) is negative and JavaScript's `i % 6` is negative too, so the `switch` at colorAdjust.js:50 matches no case and the channels come out NaN. The exception is an i that is a multiple of 6: there `i % 6` is `-0`, which `case 0` matches, and the result is that of the hue h - floor(h). `rgbToHsv` never produces a negative hue, so the pipeline never meets either case.
- ColorSpace.UnitOfHsv: requires a non-negative hue, for the same reason.
- Buffer.AdjustColors: requires a buffer length that is a multiple of 4. An image buffer always has that length. Its contract speaks of `old(...)`, as an in-place update must.
- The `return imageData` of colorAdjust.js:107 hands back the same, mutated buffer. The method modifies its array argument in place instead.
- The converse round trip `rgbToHsv(hsvToRgb(x)) == x` is not stated. It holds only for canonical HSV triples, and the source neither relies on nor promises it.
