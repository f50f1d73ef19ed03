# Shader-to-PCM pipeline of the sound-shader preview

A Dafny model of the part of the sound-shader preview panel that turns a
fragment shader into an audio buffer, and of the small transport state
around that buffer.

- **Codec** (`codec.dfy`). The shader footer quantises a synthesized value
  `y` into a 16-bit code `v = floor((0.5 + 0.5 y) * 65536)`. It writes the
  low byte `v mod 256` and the high byte `floor(v / 256)` as colour channels.
  The readback loop recombines the bytes as `lo + 256 hi` and scales the code
  back to `code / 65535 * 2 - 1`. The 8-bit colour write between the two
  halves is the unsigned-normalised fixed-point conversion: clamp to [0, 1],
  then round `c * 255`.
- **Renderer** (`renderer.dfy`). One rasterisation pass covers a 512 x 512
  surface, so one pass makes 262144 stereo samples. The loop
  `for (i = 0; i < numBlocks; i++)` uses a real-valued
  `numBlocks = sampleRate * 180 / 262144`. Pass `i` gets the uniform
  `blockOffset = i * 262144 / sampleRate`, and pixel `j` goes to buffer
  index `i * 262144 + j`. The rasterizer plus `readPixels` is an abstract
  `Raster`, which maps a pass index to 4 x 262144 bytes in row-major order
  from the bottom row. Writes past the end of a typed array are dropped.
- **Transport** (`transport.dfy`). `frontend/src/app.tsx` keeps this state:
  error text, the loaded flag, auto-play, the window `[start, end]`, the
  displayed position, the clock anchor `lastTimeStamp`, and the started
  buffer sources. It changes on the range slider, Play, the per-frame poll,
  the auto-play checkbox and the `setShader` message.
- **Legacy** (`legacy.dfy`). `frontend/src/main.ts` is the older
  stand-alone player. Its footer (lines 9-14), constants (21-30) and block
  loop (114-128) are the same definitions as app.tsx lines 21-26, 30-46 and
  142-156. The same members model them. After each `setShader` it starts
  the whole buffer from offset 0.

Three behaviours of the code worth knowing:
- `play` does not stop the previous buffer source. Pressing Play twice leaves
  two voices sounding, so `voices` only grows.
- A compile error does not abort the render. The error callback sets the
  text, every pass is still rendered, and `loaded` still becomes true.
- When `numBlocks` is fractional, the loop makes `ceil(numBlocks)`
  passes. The surplus writes of the last pass land past the
  end of the typed arrays and are dropped, so every index is still written.

Parameters stand in for things outside the model: audio-context time (`now`),
the sample rate, the GPU (shader text to diagnostic and readback) and the
shader's `mainSound` (in the ideal-rasterizer lemmas).

The ideal rasterizer evaluates the footer exactly at every fragment. In
`IdealRaster` that is the footer as written, with each of its four colour
channels passed through the 8-bit write. `CorrectedRaster` is the same
rasterizer running the corrected footer of the Findings table.

## Model

| member | source | states |
|---|---|---|
| Codec.Combine | frontend/src/app.tsx:153-154 | `lo + 256 hi` is a 16-bit code, and both bytes are recovered from it (`v % 256 = lo`, `v / 256 = hi`) |
| Codec.Decode | frontend/src/app.tsx:153-154 | a decoded sample lies in [-1, 1]; it is -1 exactly for bytes (0, 0) and 1 exactly for (255, 255) |
| Codec.DecodeOrder | frontend/src/app.tsx:153-154 | decoding keeps the order of codes, and distinct byte pairs decode to distinct samples |
| Codec.ChannelsIndependent | frontend/src/app.tsx:153-154 | two readbacks give the same left sample iff they agree on bytes 4j and 4j+1, and the same right sample iff they agree on 4j+2 and 4j+3 |
| Codec.RewriteRightKeepsLeft | frontend/src/app.tsx:153-154 | overwriting the right channel's two bytes leaves the left sample unchanged and gives the decoded new pair on the right |
| Codec.Quantize | frontend/src/app.tsx:23 | the code is the floor of `(0.5 + 0.5 y) * 65536`; it fits 16 bits for y in [-1, 1); y = 1 gives 65536 |
| Codec.QuantizeMonotone | frontend/src/app.tsx:23 | the footer's quantisation is monotone in y |
| Codec.Split | frontend/src/app.tsx:24-25 | low and high parts recombine to the code; the low part is a byte; the high part is a byte iff the code fits 16 bits |
| Codec.FooterColour | frontend/src/app.tsx:23-26 | each channel pair, scaled by 255, recombines as `lo + 256 hi` to the quantised code; the low channels always lie in [0, 1], so only a high channel can leave the colour range; for values in [-1, 1) all four channels lie in [0, 1] |
| Codec.ToByte | frontend/src/app.tsx:26 | the 8-bit colour write saturates below 0 and above 1, and is within half a step of `c * 255` in between |
| Codec.ToByteExact | frontend/src/app.tsx:24-26 | a channel holding `k / 255` is read back as exactly k |
| Codec.FooterWritesEncoding | frontend/src/app.tsx:23-26 | the bytes the 8-bit target holds after the footer's colour write are, channel by channel, the as-written encodings of the left and right values |
| Codec.EncodeAsWritten | frontend/src/app.tsx:23-26 | with the footer as written, the read-back pair recombines to the quantised code for every y in [-1, 1) |
| Codec.FullScaleDoesNotRoundTrip | frontend/src/app.tsx:23-26 | with the footer as written, y = 1 gives code 65536 and high channel 256/255; it reads back as (0, 255) and decodes to 65280/65535*2-1, about 0.992, about 0.0078 short of 1 and so further than the tolerance; a smaller y reads back higher; just below -1 the code is -1, which reads back as (255, 0) and decodes to 255/65535*2-1, about -0.992, about 0.0078 above -1 |
| Codec.Clamp | frontend/src/app.tsx:23 | the corrected code always fits 16 bits and equals the code whenever that already fits |
| Codec.Encode | frontend/src/app.tsx:23-26 | the corrected footer's pair recombines to the clamped code, and it agrees with the footer as written on [-1, 1) |
| Codec.EncodeMonotone | frontend/src/app.tsx:23-26 | the corrected encoding's code is monotone in y |
| Codec.RoundTrip | frontend/src/app.tsx:20-27 | corrected encode then decode returns every y in [-1, 1] within 2/65535, and returns -1 and 1 exactly |
| Renderer.Passes | frontend/src/app.tsx:46 | the pass count is the fewest whole blocks that cover the buffer |
| Renderer.LoopGuard | frontend/src/app.tsx:142 | `i < numBlocks` holds (as reals) exactly when `i < Passes`, so the loop makes `ceil(numBlocks)` passes |
| Renderer.PassesCover | frontend/src/app.tsx:40-46 | the passes cover the buffer exactly iff 262144 divides its length; otherwise the last pass reaches past the end |
| Renderer.DestSplits | frontend/src/app.tsx:153-154 | pixel j of pass i lands in block i's range `[i*262144, (i+1)*262144)`, and pass and pixel are recovered from the index |
| Renderer.BlocksDisjoint | frontend/src/app.tsx:142-156 | two (pass, pixel) pairs write the same index iff they are the same pair |
| Renderer.PixelTimeIsIndexTime | frontend/src/app.tsx:142-154 | the footer evaluates pixel j of pass i at time `(i*262144 + j) / sampleRate`, the time of the index it is written to |
| Renderer.RowMustMatchWidth | frontend/src/app.tsx:21 | for a pixel above the bottom row, that time correspondence holds iff the footer's literal row length equals WIDTH |
| Renderer.Store | frontend/src/app.tsx:153-154 | a typed-array write changes only its index, ignores indices past the end, and never changes the length |
| Renderer.DecodePass | frontend/src/app.tsx:152-155 | one pass decodes pixel j into index `base + j` of both channels and leaves every other index as it was |
| Renderer.Render | frontend/src/app.tsx:142-156 | after the loop both buffers keep their length, and every index k holds the sample of pixel `k % 262144` of pass `k / 262144`, so the buffers equal the whole-buffer definition the message handlers use; nothing of the old contents survives; indices are written once each, in increasing order |
| Renderer.RenderedInRange | frontend/src/app.tsx:150-155 | every rendered sample lies in [-1, 1], whatever the rasterizer returns |
| Renderer.ReadbackPixel | frontend/src/app.tsx:142-155 | for any footer, pixel j of pass i decodes the four bytes written for the shader's value at time `(i*262144 + j) / sampleRate`, in RGBA order |
| Renderer.IdealPixel | frontend/src/app.tsx:20-27 | with an ideal rasterizer running the footer as written, pixel j decodes to the as-written encoding of the shader's value at that pixel's time |
| Renderer.CorrectedPixel | frontend/src/app.tsx:20-27 | with the corrected footer, pixel j decodes to the corrected encoding of the shader's value at that pixel's time |
| Renderer.IdealRenderRoundTrip | frontend/src/app.tsx:142-156 | with an ideal rasterizer running the footer as written, index k holds the shader's value at time `k / sampleRate` within 2/65535, for values in [-1, 1) |
| Renderer.IdealFullScaleReadsLow | frontend/src/app.tsx:20-27 | with the footer as written, a shader returning (1, 1) leaves 65280/65535*2-1 at every index of both channels, below 1 by more than the tolerance |
| Renderer.CorrectedRenderRoundTrip | frontend/src/app.tsx:142-156 | with the corrected footer, index k holds the shader's value at time `k / sampleRate` within 2/65535 for all values in [-1, 1], full scale included |
| Transport.Initial | frontend/src/app.tsx:40-55 | the first state has a silent full-length buffer, no error, nothing loaded, auto-play off, no voice, the window `[0, 180]`, the position at `start`, and the clock anchored at now |
| Transport.SelectRange | frontend/src/app.tsx:195-200 | the window becomes `start <= end` with `{start, end} = {a, b}`, and nothing else changes |
| Transport.Play | frontend/src/app.tsx:57-65 | Play anchors `lastTimeStamp` at now, keeps every earlier voice, and adds one voice at offset `start` that ends at `end`, with a non-negative duration when the window is valid |
| Transport.Animate | frontend/src/app.tsx:69-75 | a frame changes only the displayed position, and changes nothing while there is no current node |
| Transport.PositionAtPlay | frontend/src/app.tsx:57-73 | the position polled at the instant of Play is `start` |
| Transport.PositionMonotone | frontend/src/app.tsx:69-73 | the polled position never decreases as time advances, with or without a current node |
| Transport.PositionTracksVoice | frontend/src/app.tsx:57-73 | while the new voice sounds, the polled position is the buffer position it plays, and it stays within `[start, end]` |
| Transport.HandleMessage | frontend/src/app.tsx:108-166 | `setShader` leaves the error empty or sets it to the callback's log; it overwrites every sample of both channels with the rendered one, sets `loaded`, and plays iff auto-play is on, keeping every earlier voice; other commands change nothing |
| Transport.StepPreservesValid | frontend/src/app.tsx:57-212 | every transition keeps both buffer lengths and a window with `start <= end`: the range slider, Play, the frame poll, the message handler, and the auto-play checkbox (app.tsx:179-181), which sets only the flag |
| Transport.RunPreservesValid | frontend/src/app.tsx:57-200 | over any run of events the buffers are never resized, the window is never inverted, and every voice started has a non-negative duration |
| Transport.VoicesOnlyGrow | frontend/src/app.tsx:57-65 | no transition stops or alters a started voice |
| Transport.RunKeepsVoices | frontend/src/app.tsx:57-65 | over any run the voices started before it are kept unchanged |
| Legacy.TrackSeconds | frontend/src/main.ts:27 | the buffer lasts `sampleRate * 180 / sampleRate = 180` seconds |
| Legacy.HandleMessage | frontend/src/main.ts:83-136 | `setShader` overwrites every sample of both channels over all passes, then starts one more voice at offset 0 for the whole track; other commands change nothing |
| Legacy.SamplesInRange | frontend/src/main.ts:122-127 | after `setShader` every sample of both channels lies in [-1, 1] |
| Legacy.PlaysTheShader | frontend/src/main.ts:9-14 | with an ideal rasterizer running the footer as written, the voice started from offset 0 plays at index k the shader's value at `k / sampleRate`, within 2/65535, for values in [-1, 1) |

## Left out

- Program composition (`'#line 1 1\n' + shader + footer`), compilation and linking are not modelled. A `Gpu` function of the shader text returns the diagnostic and the per-pass readback instead.
- The scene, camera, render target and `readPixels` of three.js/WebGL are abstract. Only the ideal-rasterizer lemmas fix what they produce.
- IEEE precision is not modelled. `Float32Array`, GLSL floats and the time uniform are exact `real`s here.
- The sample rate is a positive integer, which is what devices report. A fractional rate would truncate the `createBuffer` length, and that is not modelled.
- Transport.Animate: it reads `start` and `lastTimeStamp` from the current state. In the source, the polling closure is re-registered only when the current node changes, so it keeps the values from the last Play. The two agree until the range slider moves during playback.
- The gain slider and gain node (app.tsx:47, 86-88, 184-188) are not modelled. They set a value on the audio graph and do no arithmetic on samples.
- The `loaded` message to the host (app.tsx:168) is not modelled. The effect at app.tsx:107-172 has no dependency list, so after every render it posts `loaded` again and re-registers the message listener. The React markup and `console.log` are not modelled either.
- main.ts's audio-context wake-up on the first touch or click (main.ts:138-144) and its commented-out block (main.ts:34-81) are not modelled.
- Loop, seek, stop and the anti-click gain ramp are not modelled, because neither file implements them.
- Codec.EncodeAsWritten: its contract covers y in [-1, 1) only. Below -1 the code is negative, and its high part is clamped by the colour write. That behaviour is defined but not stated.

## Findings

| source | as written | input that shows it | evidently intended | confidence | as-written member | corrected member |
|---|---|---|---|---|---|---|
| frontend/src/app.tsx:23-26 (same text at frontend/src/main.ts:11-14) | `v = floor((0.5 + 0.5 y) * 65536)` with no clamp, so y = 1 gives v = 65536 and high channel 256/255 | `mainSound` returning 1.0: the colour write clamps to bytes (0, 255), which decode to 65280/65535*2-1 ≈ 0.9922, while y = 1 - 2^-15 decodes to exactly 1; likewise y = -1 - 2^-16 gives v = -1, read back as (255, 0) ≈ -0.9922 | clamp the code to [0, 65535], so every y in [-1, 1] reads back within 2/65535 and y = 1 reads back as 1 | high, not executed | Codec.FullScaleDoesNotRoundTrip, Renderer.IdealFullScaleReadsLow | Codec.RoundTrip, Renderer.CorrectedRenderRoundTrip |
