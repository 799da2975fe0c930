/** The frame store and the per-frame work done on it in place: clear both
    buffers, composite every sample under the z-test, and write the buffer
    out as text. */
module FrameStore {
  import opened Screen
  import opened Luminance
  import opened Compositor

  /** The character buffer and the depth buffer, one cell per screen pixel. */
  class Frame {
    var buffer: array<char>
    var zbuffer: array<real>

    ghost predicate Valid()
      reads this
    {
      buffer.Length == BufferSize && zbuffer.Length == BufferSize
    }

    /** Both buffers start out zero-filled, as static storage does. */
    constructor ()
      ensures Valid() && fresh(buffer) && fresh(zbuffer)
      ensures forall p :: 0 <= p < BufferSize ==> buffer[p] == '\0' && zbuffer[p] == 0.0
    {
      buffer := new char[BufferSize](_ => '\0');
      zbuffer := new real[BufferSize](_ => 0.0);
    }

    /** Clears every glyph to the background space and every depth to zero. */
    method Reset()
      requires Valid()
      modifies buffer, zbuffer
      ensures forall p :: 0 <= p < BufferSize ==> buffer[p] == ' ' && zbuffer[p] == 0.0
    {
      for p := 0 to BufferSize
        invariant forall q :: 0 <= q < p ==> buffer[q] == ' '
      {
        buffer[p] := ' ';
      }
      for p := 0 to BufferSize
        invariant forall q :: 0 <= q < BufferSize ==> buffer[q] == ' '
        invariant forall q :: 0 <= q < p ==> zbuffer[q] == 0.0
      {
        zbuffer[p] := 0.0;
      }
    }

    /** Offers one sample to the frame. The single cell it lands on, if it
        passes the gate and is strictly nearer than what the cell holds, takes
        its depth and its glyph; every other cell of both buffers is unchanged,
        and no depth ever decreases. */
    method Composite(s: Sample)
      requires Valid()
      requires forall p :: 0 <= p < BufferSize && Accepts(zbuffer[p], s, p) ==> GlyphDefined(s.lum)
      modifies buffer, zbuffer
      ensures forall p :: 0 <= p < BufferSize ==>
                zbuffer[p] == (if Accepts(old(zbuffer[p]), s, p) then s.ooz else old(zbuffer[p]))
      ensures forall p :: 0 <= p < BufferSize ==>
                buffer[p] == (if Accepts(old(zbuffer[p]), s, p) then Glyph(s.lum) else old(buffer[p]))
      ensures forall p :: 0 <= p < BufferSize ==> zbuffer[p] >= old(zbuffer[p])
      ensures !Visible(s) ==> buffer[..] == old(buffer[..]) && zbuffer[..] == old(zbuffer[..])
    {
      if s.lum > 0.0 && s.xp >= 0 && s.xp < ScreenWidth && s.yp >= 0 && s.yp < ScreenHeight {
        var idx := PixelIndex(s.xp, s.yp);
        if s.ooz > zbuffer[idx] {
          zbuffer[idx] := s.ooz;
          var luminanceIndex := GlyphIndex(s.lum);
          buffer[idx] := Ramp[luminanceIndex];
        }
      }
    }

    /** Renders one frame from the samples of its surface sweep: afterwards
        every cell holds exactly the depth and glyph the compositing rule
        gives for those samples, whatever the buffers held before. */
    method Render(samples: seq<Sample>)
      requires Valid() && GlyphsDefined(samples)
      modifies buffer, zbuffer
      ensures forall p :: 0 <= p < BufferSize ==>
                zbuffer[p] == Nearest(samples, p) && buffer[p] == Shown(samples, p)
    {
      Reset();
      for i := 0 to |samples|
        invariant GlyphsDefined(samples[..i])
        invariant forall p :: 0 <= p < BufferSize ==>
                    zbuffer[p] == Nearest(samples[..i], p) && buffer[p] == Shown(samples[..i], p)
      {
        assert samples[..i + 1][..i] == samples[..i];
        Composite(samples[i]);
        GlyphsDefinedPrefix(samples, i + 1);
      }
      assert samples[..|samples|] == samples;
    }

    /** The characters the print loop emits for the current buffer. */
    method Print() returns (text: string)
      requires Valid()
      ensures text == Serialise(buffer[..])
    {
      text := [];
      for j := 0 to BufferSize
        invariant |text| == j
        invariant forall k :: 0 <= k < j ==> text[k] == if k % ScreenWidth != 0 then buffer[k] else '\n'
      {
        text := text + [if j % ScreenWidth != 0 then buffer[j] else '\n'];
      }
      SerialiseSpec(buffer[..]);
    }
  }
}
