/** Brightness to glyph: the twelve-symbol luminance ramp and the bucket a
    brightness value selects in it. */
module Luminance {

  /** Glyphs ordered from dimmest to brightest. */
  const Ramp: string := ".,-~:;=!*#$@"

  /** C's conversion of a floating-point value to `int`: rounds toward zero. */
  function Trunc(x: real): (n: int)
    ensures x >= 0.0 ==> 0 <= n && n as real <= x < n as real + 1.0
    ensures x < 0.0 ==> n <= 0 && n as real - 1.0 < x <= n as real
  {
    if x >= 0.0 then x.Floor else -((-x).Floor)
  }

  /** The ramp bucket of a brightness value: the brightness scaled by eight
      and truncated, with no clamping. */
  function GlyphIndex(lum: real): (idx: int)
    ensures lum > 0.0 ==> 0 <= idx && idx as real <= lum * 8.0 < idx as real + 1.0
  {
    Trunc(lum * 8.0)
  }

  /** Whether the unclamped bucket of `lum` is a valid ramp position. */
  predicate GlyphDefined(lum: real) {
    0 <= GlyphIndex(lum) < |Ramp|
  }

  /** The bucket is a valid ramp position exactly when the brightness lies
      strictly between -1/8 and 3/2; for the positive brightness values that
      reach it, exactly when it is below 3/2. */
  lemma GlyphDefinedRange(lum: real)
    ensures GlyphDefined(lum) <==> -0.125 < lum < 1.5
    ensures lum > 0.0 ==> (GlyphDefined(lum) <==> lum < 1.5)
  {
  }

  /** A brighter sample never selects a dimmer bucket. */
  lemma GlyphIndexMonotone(l1: real, l2: real)
    requires l1 <= l2
    ensures GlyphIndex(l1) <= GlyphIndex(l2)
  {
  }

  /** The glyph the compositor writes for brightness `lum`: a ramp symbol,
      never the background space and never a newline. */
  function Glyph(lum: real): (c: char)
    requires GlyphDefined(lum)
    ensures c in Ramp && c != ' ' && c != '\n'
  {
    Ramp[GlyphIndex(lum)]
  }
}
