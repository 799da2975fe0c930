# Spinning donut: the depth-resolved frame compositor

This project models the per-frame buffer logic of the spinning ASCII donut
(`renderFrame` in `Main.cpp`) and proves what each frame ends up holding.

A frame lives in two flat 80 × 22 buffers: a character buffer and a depth
buffer of reciprocal depths, where a larger value is nearer. Each frame does
three things:

1. It clears both buffers.
2. It offers every surface sample `(xp, yp, ooz, L)` to the compositor. A
   sample passes the gate when its brightness `L` is positive and its column
   and row are on screen. It is then written to cell `xp + 80 * yp` only if
   its reciprocal depth `ooz` is strictly greater than the depth the cell
   holds. A write stores `ooz` and the ramp glyph `".,-~:;=!*#$@"[trunc(L*8)]`.
3. It writes the buffer out as text. Character `j` is the buffer's glyph,
   except that column 0 of every row is replaced by a newline.

The torus geometry that produces the samples is not modelled. A frame is an
arbitrary finite sequence of samples.

Layout:

- `screen.dfy` (`Screen`): the screen constants, pixel addressing and the
  text of a frame.
- `luminance.dfy` (`Luminance`): C's truncating conversion, the unclamped ramp
  bucket and the glyph.
- `compositor.dfy` (`Compositor`): the compositing rule on values.
  `Nearest(samples, p)` is the depth cell `p` holds after a frame.
  `Shown(samples, p)` is the glyph it holds. The lemmas say what these two
  values mean.
- `frame.dfy` (`FrameStore`): the class `Frame` with the two arrays, updated
  in place by `Reset`, `Composite` and `Render`, and read by `Print`.

The ramp index is not clamped in `Main.cpp:61-62`, and the model keeps it
unclamped. The source writes a ramp glyph exactly when the bucket is in
`0..11`. Bucket 12 would write the string literal's terminating NUL, and
buckets from 13 up read past the literal. The model's preconditions ask that
every sample passing both the gate and the z-test has a bucket in `0..11`.
For positive brightness this means brightness below 3/2 (`GlyphDefinedRange`).
The brightness formula of `Main.cpp:54` never exceeds √2 < 3/2, so the
source never reaches bucket 12 or beyond. A clamp would only define
behaviour for samples the source never produces, so the model keeps the
unclamped index and states the valid range as a precondition.
`BrightnessBoundSuffices` shows that this bound meets the precondition for
every frame.

Depth resolution, not write order, decides each cell's depth
(`OrderIndependent`). The glyph is order-independent whenever a single
sample attains the cell's depth (`SoleNearestShown`). When two samples tie
at the maximum, the strict `>` of `Main.cpp:59` keeps the first one's glyph
(`ShownIsFirstNearest`). In the source this holds only up to the `float`
rounding of stored depths described under "## Left out".

## Model

| member | source | states |
|---|---|---|
| Screen.PixelIndex | Main.cpp:58 | An in-bounds pixel's offset lies in `[0, 1760)`. Taking it modulo 80 gives back the column, and dividing it by 80 gives back the row. |
| Screen.PixelIndexInjective | Main.cpp:58 | Two in-bounds pixels share a cell exactly when they have the same column and row. |
| Screen.SerialiseRows | Main.cpp:70-71 | The text the print loop emits for whole rows, one row at a time: a newline, then the row's glyphs from column 1 on. Its contract gives the length (one character per cell); its meaning is proved by `SerialiseRowsAt`. |
| Screen.Serialise | Main.cpp:70-71 | The text of one whole frame buffer, with exactly 1760 characters; its character-by-character meaning is proved by `SerialiseSpec`. |
| Screen.SerialiseRowsAt | Main.cpp:70-71 | In the row-by-row text of a buffer, character `j` is a newline when `j % 80 == 0` and the buffer's glyph `j` otherwise. |
| Screen.SerialiseSpec | Main.cpp:70-71 | The frame text has exactly 1760 characters, newlines exactly at the row starts (replacing column 0) and buffer glyphs everywhere else. |
| Luminance.Trunc | Main.cpp:61 | The `double`-to-`int` conversion rounds toward zero. For non-negative `x` the result `n` is non-negative with `n <= x < n + 1`. For negative `x` it is non-positive with `n - 1 < x <= n`. |
| Luminance.GlyphIndex | Main.cpp:61 | `int luminance_index = L * 8`, with no clamp. For positive brightness the bucket is the floor of `8L`: non-negative, at most `8L` and more than `8L - 1`. |
| Luminance.GlyphDefinedRange | Main.cpp:61-62 | `trunc(L*8)` is a valid index into the 12-symbol ramp exactly when `-1/8 < L < 3/2`. For the positive `L` that reach it, this means exactly `L < 3/2`. |
| Luminance.GlyphIndexMonotone | Main.cpp:61-62 | A brighter sample never selects an earlier, dimmer ramp bucket. |
| Luminance.Glyph | Main.cpp:62 | The glyph written for a sample is a ramp symbol. It is never the background space and never a newline. |
| Compositor.Visible | Main.cpp:57 | The gate: positive brightness, `0 <= xp < 80` and `0 <= yp < 22`. No contract of its own; `Composite` states its effect. |
| Compositor.Lands | Main.cpp:57-58 | The sample passes the gate and its cell `xp + 80 * yp` is `p`. No contract of its own. |
| Compositor.Accepts | Main.cpp:59 | The z-test: the sample lands on `p` and its `ooz` is strictly greater than the depth held there. No contract of its own; `Composite` states its effect. |
| Compositor.Nearest | Main.cpp:57-60 | The depth a cell holds after a reset followed by compositing the frame's samples in order. Its contract says this depth is never below the reset value 0; its meaning is proved by `NearestIsMax`. |
| Compositor.Shown | Main.cpp:57-62 | The glyph a cell holds after a reset followed by compositing the frame's samples in order. Its contract says it is the background space or a ramp symbol; its meaning is proved by `ShownIsFirstNearest` and `DrawnIffReached`. |
| Compositor.BrightnessBoundSuffices | Main.cpp:54-62 | If every sample's brightness is below 3/2, every ramp read of the frame is in range. |
| Compositor.NearestIsMax | Main.cpp:57-60 | After a frame, a cell's depth is the maximum of 0 and the `ooz` of every gated sample landing on it. It is at least each of them, and it is either 0 or one of them. |
| Compositor.NearestMonotone | Main.cpp:59-60 | Compositing more samples of the frame never lowers any cell's depth. |
| Compositor.OrderIndependent | Main.cpp:59-60 | Two enumerations of the same samples, in any order, leave every cell with the same depth. |
| Compositor.ShownIsFirstNearest | Main.cpp:57-62 | A cell with depth 0 shows `' '`. Otherwise it shows the glyph of the first sample that attains the cell's depth, and every earlier gated sample on that cell is strictly farther. |
| Compositor.SoleNearestShown | Main.cpp:59-62 | When exactly one landing sample attains the cell's positive depth, the cell shows that sample's glyph, wherever it stands in the sequence. |
| Compositor.DrawnIffReached | Main.cpp:57-62 | A cell shows a glyph other than `' '` exactly when some gated sample with `ooz > 0` landed on it. |
| FrameStore.Frame.constructor | Main.cpp:15-16 | Both buffers have 1760 cells and start zero-filled. |
| FrameStore.Frame.Reset | Main.cpp:27-28 | Afterwards every character cell is `' '` and every depth cell is `0`. |
| FrameStore.Frame.Composite | Main.cpp:57-62 | A sample that fails the gate leaves both buffers unchanged. Otherwise only its own cell can change, and only when `ooz` is strictly greater than the cell's depth. The cell then takes `ooz` and the sample's glyph. No depth ever decreases. |
| FrameStore.Frame.Render | Main.cpp:25-66 | After a frame, whatever the buffers held before, every cell holds `Nearest` and `Shown` of that frame's samples. Nothing carries over between frames. |
| FrameStore.Frame.Print | Main.cpp:70-71 | The characters emitted by the print loop are `Serialise` of the buffer. |

## Left out

- Torus geometry, rotation, perspective and lighting (`Main.cpp:34-54`): floating-point trigonometry. Each sample's `(xp, yp, ooz, L)` is an input. So the model does not prove that `L <= √2`, that `z > 0`, the scene at `A = B = 0`, or that advancing the angles by 2π reproduces the frame.
- The `theta`/`phi` sweep (`Main.cpp:31-32`): how many steps it takes depends on floating-point accumulation. It is replaced by an arbitrary finite sample sequence.
- The `double`-to-`int` conversion of the projected coordinates (`Main.cpp:50-51`): part of the projection. `xp` and `yp` are given as integers, and a value outside `int` range is not modelled.
- The `float` narrowing of `ooz` in the depth buffer (`Main.cpp:16`, `60`): a rounding detail. Both the sample and the stored depth are `real`. With `float` storage, a later sample whose `double` depth lies between the rounded stored maximum and the true maximum still passes `ooz > zbuffer[idx]`. So the exact maximum of `NearestIsMax` and the first-sample-wins tie rule of `ShownIsFirstNearest` hold for the real-valued model only.
- The ANSI escapes, `std::cout` and `putchar` (`Main.cpp:69`, `71`, `76`): terminal output. Only the text the print loop would write is modelled.
- `main`'s endless loop, the angle increments and `usleep` (`Main.cpp:77-82`): timing and driver code that never terminates.
- FrameStore.Frame.Composite: requires the ramp bucket to be in `0..11` when a glyph is written. It therefore also excludes bucket 12 (`3/2 <= L < 13/8`), for which the source would write the literal's terminating NUL. The source's brightness never exceeds √2, so that case cannot arise.
- FrameStore.Frame.Render: excludes bucket 12 for every accepted sample, for the same reason as `Composite`.
- Luminance.Glyph: defined only for buckets `0..11`. The NUL that bucket 12 would select is not modelled.
- Determinism of a frame: every member of the model is a function of its inputs, so a separate statement would add nothing.
