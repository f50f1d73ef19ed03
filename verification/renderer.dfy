/**
 The block renderer: one rasterisation pass per block of WIDTH x HEIGHT
 pixels, each pixel carrying one stereo sample, decoded into two
 fixed-length channel buffers.

 The rasterizer and `readPixels` are abstract: a `Raster` gives, for each
 pass index, the bytes read back from the surface (four per pixel, rows
 from the bottom, each row left to right).
 */
module Renderer {
  import opened Codec

  /** Track length in seconds. */
  const DURATION: nat := 180

  /** Render-surface size in pixels. */
  const WIDTH: nat := 512
  const HEIGHT: nat := 512

  /** Stereo samples produced by one pass. */
  const SAMPLES: nat := WIDTH * HEIGHT

  /** Bytes read back after one pass. */
  const PIXEL_BYTES: nat := 4 * SAMPLES

  /** The row length written into the footer's time formula as a literal. */
  const FOOTER_ROW: real := 512.0

  /** The output device's sample rate, in samples per second. */
  type SampleRate = n: nat | 0 < n witness 44100

  /** The bytes read back after one pass. */
  type Readback = s: seq<Byte> | |s| == PIXEL_BYTES witness seq(PIXEL_BYTES, _ => 0)

  /** What the rasterizer yields for each pass index. */
  type Raster = nat -> Readback

  /** Length of each channel buffer, fixed when the buffer is created. */
  function BufferLength(sr: SampleRate): nat
  {
    sr * DURATION
  }

  /** `numBlocks`: a real number, fractional unless SAMPLES divides the length. */
  function NumBlocks(sr: SampleRate): real
  {
    BufferLength(sr) as real / SAMPLES as real
  }

  /** How many passes the block loop makes: the fewest whole blocks that
      cover the buffer. */
  function Passes(sr: SampleRate): (n: nat)
    ensures n * SAMPLES >= BufferLength(sr)
    ensures n > 0 ==> (n - 1) * SAMPLES < BufferLength(sr)
  {
    (BufferLength(sr) + SAMPLES - 1) / SAMPLES
  }

  /** The loop `for (i = 0; i < numBlocks; i++)` runs pass `i` exactly when
      `i < Passes(sr)`, so it makes `ceil(numBlocks)` passes. */
  lemma LoopGuard(sr: SampleRate, i: nat)
    ensures (i as real) < NumBlocks(sr) <==> i < Passes(sr)
  {  }

  /** When SAMPLES divides the buffer length the passes cover it exactly;
      otherwise the last pass reaches past its end. */
  lemma PassesCover(sr: SampleRate)
    ensures BufferLength(sr) % SAMPLES == 0 <==> Passes(sr) * SAMPLES == BufferLength(sr)
    ensures BufferLength(sr) % SAMPLES != 0 ==> Passes(sr) * SAMPLES > BufferLength(sr)
  {
  }

  /** The time-origin uniform of pass `i`, in seconds. */
  function BlockOffset(sr: SampleRate, i: nat): real
  {
    (i * SAMPLES) as real / sr as real
  }

  /** Buffer index written for pixel `j` of pass `i`. */
  function Dest(i: nat, j: nat): nat
  {
    i * SAMPLES + j
  }

  /** Pixel `j` of pass `i` goes to the `j`-th index of block `i`'s range
      `[i * SAMPLES, (i + 1) * SAMPLES)`, and nowhere else: the pass and the
      pixel are recovered from the index. */
  lemma DestSplits(i: nat, j: nat)
    requires j < SAMPLES
    ensures i * SAMPLES <= Dest(i, j) < (i + 1) * SAMPLES
    ensures Dest(i, j) / SAMPLES == i && Dest(i, j) % SAMPLES == j
  {
  }

  /** Different (pass, pixel) pairs write different indices: the blocks'
      ranges are disjoint. */
  lemma BlocksDisjoint(i: nat, j: nat, i': nat, j': nat)
    requires j < SAMPLES && j' < SAMPLES
    ensures Dest(i, j) == Dest(i', j') <==> i == i' && j == j'
  {  }

  /** Window position of pixel `j` of the readback: row `j / WIDTH` from the
      bottom, column `j % WIDTH`; the fragment sits at the pixel's centre. */
  function FragCoord(j: nat): (real, real)
    requires j < SAMPLES
  {
    ((j % WIDTH) as real + 0.5, (j / WIDTH) as real + 0.5)
  }

  /** The footer's time formula with the row length `row`. */
  function FooterTime(offset: real, frag: (real, real), sr: SampleRate, row: real): real
  {
    offset + ((frag.0 - 0.5) + (frag.1 - 0.5) * row) / sr as real
  }

  /** The time at which the footer evaluates the sound for pixel `j` of pass `i`. */
  function PixelTime(sr: SampleRate, i: nat, j: nat): real
    requires j < SAMPLES
  {
    FooterTime(BlockOffset(sr, i), FragCoord(j), sr, FOOTER_ROW)
  }

  /** Each pixel is evaluated at the time of the buffer index it is written to. */
  lemma PixelTimeIsIndexTime(sr: SampleRate, i: nat, j: nat)
    requires j < SAMPLES
    ensures PixelTime(sr, i, j) == Dest(i, j) as real / sr as real
  {  }

  /** The correspondence hinges on the footer's literal row length: for any
      pixel above the bottom row, its time is its index's time exactly when
      that literal equals WIDTH. */
  lemma RowMustMatchWidth(sr: SampleRate, i: nat, j: nat, row: real)
    requires WIDTH <= j < SAMPLES
    ensures FooterTime(BlockOffset(sr, i), FragCoord(j), sr, row) == Dest(i, j) as real / sr as real
            <==> row == WIDTH as real
  {
    var x, y := j % WIDTH, j / WIDTH;
    var rate := sr as real;
    assert j == x + y * WIDTH;
    assert y >= 1;
    var t := FooterTime(BlockOffset(sr, i), FragCoord(j), sr, row);
    assert t == ((i * SAMPLES) as real + x as real + y as real * row) / rate;
    assert Dest(i, j) as real / rate == ((i * SAMPLES) as real + x as real + y as real * WIDTH as real) / rate;
    if t == Dest(i, j) as real / rate {
      assert t * rate == Dest(i, j) as real;
      assert y as real * row == y as real * WIDTH as real;
    }
  }

  /** A write `buffer[k] = x` into a typed array: an index at or past the end
      is ignored and the length never changes. */
  function Store(buffer: seq<real>, k: nat, x: real): (b: seq<real>)
    ensures |b| == |buffer|
    ensures forall n :: 0 <= n < |b| && n != k ==> b[n] == buffer[n]
    ensures k < |b| ==> b[k] == x
  {
    if k < |buffer| then buffer[k := x] else buffer
  }

  /** Reference contents of index `k` of the left and right buffers: the
      sample decoded from pixel `k % SAMPLES` of pass `k / SAMPLES`. */
  function LeftAt(raster: Raster, k: nat): real
  {
    DecodePixel(raster(k / SAMPLES), k % SAMPLES).0
  }

  function RightAt(raster: Raster, k: nat): real
  {
    DecodePixel(raster(k / SAMPLES), k % SAMPLES).1
  }

  /** The indices of block `i` are exactly those whose block number is `i`;
      the pixel written to index `k` is `k - i * SAMPLES`. */
  lemma InBlock(i: nat, k: nat)
    requires i * SAMPLES <= k < (i + 1) * SAMPLES
    ensures k / SAMPLES == i && k % SAMPLES == k - i * SAMPLES
  {  }

  /** The inner loop of one pass: pixel `j` of `pixels` is decoded into index
      `base + j` of both channels, for every `j` below SAMPLES; indices
      outside `[base, base + SAMPLES)` keep their values, and writes past the
      end are dropped. */
  method DecodePass(pixels: Readback, base: nat, prevLeft: seq<real>, prevRight: seq<real>)
    returns (left: seq<real>, right: seq<real>, targets: seq<nat>)
    ensures |left| == |prevLeft| && |right| == |prevRight|
    ensures forall k :: 0 <= k < |left| ==>
              left[k] == if base <= k < base + SAMPLES then DecodePixel(pixels, k - base).0 else prevLeft[k]
    ensures forall k :: 0 <= k < |right| ==>
              right[k] == if base <= k < base + SAMPLES then DecodePixel(pixels, k - base).1 else prevRight[k]
    ensures |targets| == SAMPLES
    ensures forall n :: 0 <= n < SAMPLES ==> targets[n] == base + n
  {
    // `targets` records the index handed to each pair of `Store` calls.
    left, right, targets := prevLeft, prevRight, [];
    var j: nat := 0;
    while j < SAMPLES
      invariant j <= SAMPLES
      invariant |left| == |prevLeft| && |right| == |prevRight|
      invariant forall k :: 0 <= k < |left| ==>
                  left[k] == if base <= k < base + j then DecodePixel(pixels, k - base).0 else prevLeft[k]
      invariant forall k :: 0 <= k < |right| ==>
                  right[k] == if base <= k < base + j then DecodePixel(pixels, k - base).1 else prevRight[k]
      invariant |targets| == j
      invariant forall n :: 0 <= n < j ==> targets[n] == base + n
    {
      var k := base + j;
      left := Store(left, k, Decode(pixels[j * 4 + 0], pixels[j * 4 + 1]));
      right := Store(right, k, Decode(pixels[j * 4 + 2], pixels[j * 4 + 3]));
      targets := targets + [k];
      j := j + 1;
    }
  }

  /** The block loop. Starting from whatever the buffers held, it runs
      `ceil(numBlocks)` passes and writes pixel `j` of pass `i` to index
      `i * SAMPLES + j` of both channels. Every index of the buffers ends up
      holding its reference sample, so nothing of the previous contents
      survives, and the lengths are unchanged. `targets` lists the indices
      written, in order: each index below `Passes * SAMPLES` exactly once,
      in increasing order. */
  method Render(sr: SampleRate, raster: Raster, prevLeft: seq<real>, prevRight: seq<real>)
    returns (left: seq<real>, right: seq<real>, targets: seq<nat>)
    requires |prevLeft| == BufferLength(sr) && |prevRight| == BufferLength(sr)
    ensures |left| == |prevLeft| && |right| == |prevRight|
    ensures forall k :: 0 <= k < |left| ==> left[k] == LeftAt(raster, k)
    ensures forall k :: 0 <= k < |right| ==> right[k] == RightAt(raster, k)
    ensures |targets| == Passes(sr) * SAMPLES
    ensures forall n :: 0 <= n < |targets| ==> targets[n] == n
    ensures left == RenderedLeft(raster, |prevLeft|) && right == RenderedRight(raster, |prevRight|)
  {
    var numBlocks := NumBlocks(sr);
    left, right, targets := prevLeft, prevRight, [];
    var i: nat := 0;
    while (i as real) < numBlocks
      invariant i <= Passes(sr)
      invariant |left| == |prevLeft| && |right| == |prevRight|
      invariant forall k :: 0 <= k < |left| ==>
                  left[k] == if k < i * SAMPLES then LeftAt(raster, k) else prevLeft[k]
      invariant forall k :: 0 <= k < |right| ==>
                  right[k] == if k < i * SAMPLES then RightAt(raster, k) else prevRight[k]
      invariant |targets| == i * SAMPLES
      invariant forall n :: 0 <= n < |targets| ==> targets[n] == n
      decreases Passes(sr) - i
    {
      LoopGuard(sr, i);
      var l, r, t := DecodePass(raster(i), i * SAMPLES, left, right);
      forall k | i * SAMPLES <= k < (i + 1) * SAMPLES
        ensures LeftAt(raster, k) == DecodePixel(raster(i), k - i * SAMPLES).0
        ensures RightAt(raster, k) == DecodePixel(raster(i), k - i * SAMPLES).1
      {
        InBlock(i, k);
      }
      left, right, targets := l, r, targets + t;
      i := i + 1;
    }
    LoopGuard(sr, i);
  }

  /** The reference buffers, as a whole: what `Render` leaves behind. */
  function RenderedLeft(raster: Raster, length: nat): (s: seq<real>)
  {
    seq(length, k requires 0 <= k < length => LeftAt(raster, k))
  }

  function RenderedRight(raster: Raster, length: nat): (s: seq<real>)
  {
    seq(length, k requires 0 <= k < length => RightAt(raster, k))
  }

  /** Every sample of a rendered buffer lies in [-1, 1], whatever the rasterizer yields. */
  lemma RenderedInRange(raster: Raster, length: nat)
    ensures forall k :: 0 <= k < length ==> -1.0 <= RenderedLeft(raster, length)[k] <= 1.0
    ensures forall k :: 0 <= k < length ==> -1.0 <= RenderedRight(raster, length)[k] <= 1.0
  {
  }

  // ---------------------------------------------------------------------------
  // An ideal rasterizer: the footer evaluated exactly at every fragment
  // ---------------------------------------------------------------------------

  /** A sound shader: `mainSound`, from time in seconds to (left, right). */
  type Sound = real -> (real, real)

  /** What a footer leaves in the 8-bit target for a stereo value. */
  type PixelWrite = ((real, real)) -> Quad

  /** The four bytes of the corrected footer for a stereo value. */
  function CorrectedBytes(y: (real, real)): Quad
  {
    [Encode(y.0).0, Encode(y.0).1, Encode(y.1).0, Encode(y.1).1]
  }

  /** The readback of pass `i` from a rasterizer that runs a footer, whose
      writes are `write`, exactly at every fragment of the surface. */
  function FooterReadback(write: PixelWrite, sound: Sound, sr: SampleRate, i: nat): (px: Readback)
  {
    var bytes :=
      seq<Byte>(PIXEL_BYTES, b requires 0 <= b < PIXEL_BYTES => write(sound(PixelTime(sr, i, b / 4)))[b % 4]);
    assert |bytes| == PIXEL_BYTES;
    bytes
  }

  /** The ideal rasterizer running the footer as written. */
  function IdealRaster(sound: Sound, sr: SampleRate): Raster
  {
    (i: nat) => FooterReadback(FooterBytes, sound, sr, i)
  }

  /** The ideal rasterizer running the corrected footer. */
  function CorrectedRaster(sound: Sound, sr: SampleRate): Raster
  {
    (i: nat) => FooterReadback(CorrectedBytes, sound, sr, i)
  }

  /** Pixel `j` of a pass decodes the four bytes the footer wrote for the
      shader's value at that pixel's time, in channel order. */
  lemma {:induction false} ReadbackPixel(write: PixelWrite, sound: Sound, sr: SampleRate, i: nat, j: nat)
    requires j < SAMPLES
    ensures var w := write(sound(PixelTime(sr, i, j)));
            DecodePixel(FooterReadback(write, sound, sr, i), j) == (Decode(w[0], w[1]), Decode(w[2], w[3]))
  {
    var w := write(sound(PixelTime(sr, i, j)));
    var px := FooterReadback(write, sound, sr, i);
    assert (4 * j) / 4 == j && (4 * j) % 4 == 0;
    assert (4 * j + 1) / 4 == j && (4 * j + 1) % 4 == 1;
    assert (4 * j + 2) / 4 == j && (4 * j + 2) % 4 == 2;
    assert (4 * j + 3) / 4 == j && (4 * j + 3) % 4 == 3;
    assert px[4 * j] == w[0] && px[4 * j + 1] == w[1];
    assert px[4 * j + 2] == w[2] && px[4 * j + 3] == w[3];
  }

  /** Pixel `j` of an ideal pass decodes to the as-written encoding of the
      shader's value at that pixel's time: its bytes are the 8-bit writes of
      the footer's four colour channels there. */
  lemma {:induction false} IdealPixel(sound: Sound, sr: SampleRate, i: nat, j: nat)
    requires j < SAMPLES
    ensures var y := sound(PixelTime(sr, i, j));
            DecodePixel(FooterReadback(FooterBytes, sound, sr, i), j)
              == (Decode(EncodeAsWritten(y.0).0, EncodeAsWritten(y.0).1),
                  Decode(EncodeAsWritten(y.1).0, EncodeAsWritten(y.1).1))
  {
    ReadbackPixel(FooterBytes, sound, sr, i, j);
    FooterWritesEncoding(sound(PixelTime(sr, i, j)));
  }

  /** Pixel `j` of a corrected pass decodes to the corrected encoding of the
      shader's value at that pixel's time. */
  lemma {:induction false} CorrectedPixel(sound: Sound, sr: SampleRate, i: nat, j: nat)
    requires j < SAMPLES
    ensures var y := sound(PixelTime(sr, i, j));
            DecodePixel(FooterReadback(CorrectedBytes, sound, sr, i), j)
              == (Decode(Encode(y.0).0, Encode(y.0).1), Decode(Encode(y.1).0, Encode(y.1).1))
  {
    ReadbackPixel(CorrectedBytes, sound, sr, i, j);
  }

  /** End to end, with the footer as written: index `k` of each buffer holds
      the shader's value at time `k / sampleRate`, to within the codec's
      tolerance whenever that value lies in [-1, 1). */
  lemma IdealRenderRoundTrip(sound: Sound, sr: SampleRate, k: nat)
    ensures var y := sound(k as real / sr as real);
            && (-1.0 <= y.0 < 1.0 ==> y.0 - TOLERANCE <= LeftAt(IdealRaster(sound, sr), k) <= y.0 + TOLERANCE)
            && (-1.0 <= y.1 < 1.0 ==> y.1 - TOLERANCE <= RightAt(IdealRaster(sound, sr), k) <= y.1 + TOLERANCE)
  {
    var i, j := k / SAMPLES, k % SAMPLES;
    assert k == Dest(i, j);
    PixelTimeIsIndexTime(sr, i, j);
    IdealPixel(sound, sr, i, j);
    var y := sound(k as real / sr as real);
    if -1.0 <= y.0 < 1.0 {
      RoundTrip(y.0);
    }
    if -1.0 <= y.1 < 1.0 {
      RoundTrip(y.1);
    }
  }

  /** End to end, with the footer as written, at full scale: a shader that
      always returns (1, 1) leaves 65280/65535 * 2 - 1 at every index of both
      buffers, short of 1 by more than the codec's tolerance. */
  lemma IdealFullScaleReadsLow(sr: SampleRate, k: nat)
    ensures var raster := IdealRaster(_ => (1.0, 1.0), sr);
            && LeftAt(raster, k) == RightAt(raster, k) == Decode(0, 255)
            && LeftAt(raster, k) < 1.0 - TOLERANCE
  {
    var sound: Sound := _ => (1.0, 1.0);
    var i, j := k / SAMPLES, k % SAMPLES;
    IdealPixel(sound, sr, i, j);
    FullScaleDoesNotRoundTrip();
  }

  /** End to end, with the corrected footer: index `k` of each buffer holds
      the shader's value at time `k / sampleRate`, to within the codec's
      tolerance whenever that value lies in [-1, 1], full scale included. */
  lemma CorrectedRenderRoundTrip(sound: Sound, sr: SampleRate, k: nat)
    ensures var y := sound(k as real / sr as real);
            && (-1.0 <= y.0 <= 1.0 ==> y.0 - TOLERANCE <= LeftAt(CorrectedRaster(sound, sr), k) <= y.0 + TOLERANCE)
            && (-1.0 <= y.1 <= 1.0 ==> y.1 - TOLERANCE <= RightAt(CorrectedRaster(sound, sr), k) <= y.1 + TOLERANCE)
  {
    var i, j := k / SAMPLES, k % SAMPLES;
    assert k == Dest(i, j);
    PixelTimeIsIndexTime(sr, i, j);
    CorrectedPixel(sound, sr, i, j);
    var y := sound(k as real / sr as real);
    if -1.0 <= y.0 <= 1.0 {
      RoundTrip(y.0);
    }
    if -1.0 <= y.1 <= 1.0 {
      RoundTrip(y.1);
    }
  }
}
