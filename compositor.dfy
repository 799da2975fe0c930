/** The depth-resolved compositing rule, stated cell by cell on values.

    A frame is the sequence of surface samples the sampler produced, in the
    order it produced them. `Nearest(samples, p)` is the depth the z-buffer
    holds for cell `p` after all of them were composited into a freshly reset
    frame, and `Shown(samples, p)` is the glyph the character buffer holds.
    The lemmas below say what those two values mean. */
module Compositor {
  import opened Screen
  import opened Luminance

  /** One candidate write: projected screen column and row, reciprocal depth
      (larger is nearer) and brightness. The trigonometry producing it is not
      modelled. */
  datatype Sample = Sample(xp: int, yp: int, ooz: real, lum: real)

  /** The gate every sample passes before the depth test: lit, and on screen. */
  predicate Visible(s: Sample) {
    s.lum > 0.0 && InBounds(s.xp, s.yp)
  }

  /** The sample passes the gate and addresses cell `p`. */
  predicate Lands(s: Sample, p: int) {
    Visible(s) && PixelIndex(s.xp, s.yp) == p
  }

  /** The z-test: the sample lands on `p` and is strictly nearer than the
      depth `d` held there. */
  predicate Accepts(d: real, s: Sample, p: int) {
    Lands(s, p) && s.ooz > d
  }

  /** Depth held by cell `p` after compositing `samples` into a reset frame. */
  function Nearest(samples: seq<Sample>, p: int): (d: real)
    ensures d >= 0.0
    decreases |samples|
  {
    if samples == [] then 0.0
    else
      var d := Nearest(samples[..|samples| - 1], p);
      var s := samples[|samples| - 1];
      if Accepts(d, s, p) then s.ooz else d
  }

  /** Every write of a glyph during the frame reads the ramp in range: whenever
      a sample passes the z-test, its brightness has a valid bucket. */
  predicate GlyphsDefined(samples: seq<Sample>) {
    forall i, p ::
      0 <= i < |samples| && 0 <= p < BufferSize && Accepts(Nearest(samples[..i], p), samples[i], p)
      ==> GlyphDefined(samples[i].lum)
  }

  lemma GlyphsDefinedPrefix(samples: seq<Sample>, n: nat)
    requires GlyphsDefined(samples) && n <= |samples|
    ensures GlyphsDefined(samples[..n])
  {
    forall i | 0 <= i < n ensures samples[..n][..i] == samples[..i] { }
  }

  /** Glyph held by cell `p` after compositing `samples` into a reset frame. */
  function Shown(samples: seq<Sample>, p: int): (c: char)
    requires GlyphsDefined(samples) && 0 <= p < BufferSize
    ensures c == ' ' || c in Ramp
    decreases |samples|
  {
    if samples == [] then ' '
    else
      var prefix := samples[..|samples| - 1];
      var s := samples[|samples| - 1];
      GlyphsDefinedPrefix(samples, |samples| - 1);
      if Accepts(Nearest(prefix, p), s, p) then Glyph(s.lum) else Shown(prefix, p)
  }

  /** Under the physical bound on brightness (the lighting formula never
      exceeds the square root of two), every frame reads the ramp in range. */
  lemma BrightnessBoundSuffices(samples: seq<Sample>)
    requires forall i :: 0 <= i < |samples| ==> samples[i].lum < 1.5
    ensures GlyphsDefined(samples)
  {
  }

  /** The depth of a cell is the maximum of zero and the reciprocal depth of
      every sample that passed the gate and landed there: it is at least each
      of them, and it is either zero or one of them. */
  lemma {:induction false} NearestIsMax(samples: seq<Sample>, p: int)
    ensures Nearest(samples, p) >= 0.0
    ensures forall k :: 0 <= k < |samples| && Lands(samples[k], p) ==>
              samples[k].ooz <= Nearest(samples, p)
    ensures Nearest(samples, p) == 0.0 ||
            exists k :: 0 <= k < |samples| && Lands(samples[k], p) &&
                        samples[k].ooz == Nearest(samples, p)
    decreases |samples|
  {
    if samples != [] {
      var n := |samples| - 1;
      var prefix := samples[..n];
      NearestIsMax(prefix, p);
      assert forall k :: 0 <= k < n ==> samples[k] == prefix[k];
      if Accepts(Nearest(prefix, p), samples[n], p) {
        assert Lands(samples[n], p) && samples[n].ooz == Nearest(samples, p);
      } else if Nearest(prefix, p) != 0.0 {
        var k :| 0 <= k < n && Lands(prefix[k], p) && prefix[k].ooz == Nearest(prefix, p);
        assert samples[k] == prefix[k];
      }
    }
  }

  /** A cell gets deeper only toward the viewer: compositing more samples never
      lowers the depth a cell holds. */
  lemma {:induction false} NearestMonotone(samples: seq<Sample>, m: nat, p: int)
    requires m <= |samples|
    ensures Nearest(samples[..m], p) <= Nearest(samples, p)
    decreases |samples|
  {
    if m < |samples| {
      var n := |samples| - 1;
      assert samples[..n][..m] == samples[..m];
      NearestMonotone(samples[..n], m, p);
      assert samples[..n] == samples[..|samples| - 1];
    } else {
      assert samples[..m] == samples;
    }
  }

  /** The depth a frame ends with does not depend on the order in which the
      samples were enumerated. */
  lemma OrderIndependent(a: seq<Sample>, b: seq<Sample>, p: int)
    requires multiset(a) == multiset(b)
    ensures Nearest(a, p) == Nearest(b, p)
  {
    NearestAtMost(a, b, p);
    NearestAtMost(b, a, p);
  }

  lemma NearestAtMost(a: seq<Sample>, b: seq<Sample>, p: int)
    requires multiset(a) <= multiset(b)
    ensures Nearest(a, p) <= Nearest(b, p)
  {
    NearestIsMax(a, p);
    NearestIsMax(b, p);
    if Nearest(a, p) != 0.0 {
      var k :| 0 <= k < |a| && Lands(a[k], p) && a[k].ooz == Nearest(a, p);
      assert a[k] in multiset(a);
      assert a[k] in b;
      var k' :| 0 <= k' < |b| && b[k'] == a[k];
    }
  }

  /** The glyph of a cell: the background space when no lit, on-screen sample
      with positive reciprocal depth reached it; otherwise the glyph of the
      FIRST sample that attains the cell's depth, every earlier sample on that
      cell being strictly farther. */
  lemma {:induction false} ShownIsFirstNearest(samples: seq<Sample>, p: int)
    requires GlyphsDefined(samples) && 0 <= p < BufferSize
    ensures Nearest(samples, p) == 0.0 ==> Shown(samples, p) == ' '
    ensures Nearest(samples, p) > 0.0 ==>
              exists k :: 0 <= k < |samples| && Lands(samples[k], p) &&
                samples[k].ooz == Nearest(samples, p) &&
                GlyphDefined(samples[k].lum) && Shown(samples, p) == Glyph(samples[k].lum) &&
                (forall j :: 0 <= j < k && Lands(samples[j], p) ==> samples[j].ooz < samples[k].ooz)
    decreases |samples|
  {
    if samples != [] {
      var n := |samples| - 1;
      var prefix := samples[..n];
      GlyphsDefinedPrefix(samples, n);
      ShownIsFirstNearest(prefix, p);
      NearestIsMax(prefix, p);
      assert forall k :: 0 <= k < n ==> samples[k] == prefix[k];
      if Accepts(Nearest(prefix, p), samples[n], p) {
        assert samples[..n] == samples[..|samples| - 1];
        assert GlyphDefined(samples[n].lum);
        assert Shown(samples, p) == Glyph(samples[n].lum);
        assert forall j :: 0 <= j < n && Lands(samples[j], p) ==> samples[j].ooz < samples[n].ooz;
      } else if Nearest(prefix, p) > 0.0 {
        var k :| 0 <= k < n && Lands(prefix[k], p) && prefix[k].ooz == Nearest(prefix, p) &&
                 GlyphDefined(prefix[k].lum) && Shown(prefix, p) == Glyph(prefix[k].lum) &&
                 (forall j :: 0 <= j < k && Lands(prefix[j], p) ==> prefix[j].ooz < prefix[k].ooz);
        assert samples[k] == prefix[k];
      }
    }
  }

  /** When exactly one landing sample attains the cell's depth, the cell shows
      its glyph, wherever that sample stands in the enumeration. Only a tie at
      the maximum makes the glyph depend on the order of the samples. */
  lemma SoleNearestShown(samples: seq<Sample>, p: int, k: int)
    requires GlyphsDefined(samples) && 0 <= p < BufferSize
    requires 0 <= k < |samples| && Lands(samples[k], p)
    requires samples[k].ooz == Nearest(samples, p) > 0.0
    requires forall j :: 0 <= j < |samples| && j != k && Lands(samples[j], p) ==>
               samples[j].ooz != samples[k].ooz
    ensures GlyphDefined(samples[k].lum) && Shown(samples, p) == Glyph(samples[k].lum)
  {
    ShownIsFirstNearest(samples, p);
    var w :| 0 <= w < |samples| && Lands(samples[w], p) &&
             samples[w].ooz == Nearest(samples, p) &&
             GlyphDefined(samples[w].lum) && Shown(samples, p) == Glyph(samples[w].lum);
    assert w == k;
  }

  /** A cell shows a glyph other than the background exactly when some lit,
      on-screen sample with positive reciprocal depth landed on it. */
  lemma DrawnIffReached(samples: seq<Sample>, p: int)
    requires GlyphsDefined(samples) && 0 <= p < BufferSize
    ensures Shown(samples, p) != ' ' <==>
              exists k :: 0 <= k < |samples| && Lands(samples[k], p) && samples[k].ooz > 0.0
  {
    NearestIsMax(samples, p);
    ShownIsFirstNearest(samples, p);
    if Nearest(samples, p) > 0.0 {
      var k :| 0 <= k < |samples| && Lands(samples[k], p) &&
               samples[k].ooz == Nearest(samples, p) &&
               GlyphDefined(samples[k].lum) && Shown(samples, p) == Glyph(samples[k].lum);
    }
  }
}
