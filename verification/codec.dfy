/**
 The 16-bit sample codec shared by the two halves of the pipeline.

 The shader footer ENCODES: a synthesized value `y` becomes a 16-bit code
 `v = floor((0.5 + 0.5 y) * 65536)`, split into a low and a high channel
 numerator, each written as a colour channel `numerator / 255`. The
 readback loop DECODES: the two bytes of a channel recombine into
 `lo + 256 hi`, which is scaled back to a sample in [-1, 1].
 */
module Codec {

  /** An unsigned byte: one element of a `Uint8Array`, one 8-bit colour channel. */
  type Byte = x: int | 0 <= x < 256

  /** The largest 16-bit code, and the decoder's divisor. */
  const MAX_CODE: int := 65535

  /** The footer's multiplier. */
  const ENCODE_SCALE: real := 65536.0

  /** The quantisation error a sample in [-1, 1] may suffer on a round trip. */
  const TOLERANCE: real := 2.0 / 65535.0

  // ---------------------------------------------------------------------------
  // Decode: the readback loop
  // ---------------------------------------------------------------------------

  /** The 16-bit code a (low, high) byte pair stands for; the pair is
      recovered from the code, so no two pairs share one. */
  function Combine(lo: Byte, hi: Byte): (v: int)
    ensures 0 <= v <= MAX_CODE
    ensures v % 256 == lo && v / 256 == hi
  {
    lo + 256 * hi
  }

  /** One channel of the readback loop: the code scaled onto [-1, 1]. */
  function Decode(lo: Byte, hi: Byte): (s: real)
    ensures -1.0 <= s <= 1.0
    ensures s == -1.0 <==> lo == 0 && hi == 0
    ensures s == 1.0 <==> lo == 255 && hi == 255
  {
    Combine(lo, hi) as real / MAX_CODE as real * 2.0 - 1.0
  }

  /** Decoding preserves the order of codes and tells distinct codes apart. */
  lemma DecodeOrder(lo: Byte, hi: Byte, lo': Byte, hi': Byte)
    ensures Combine(lo, hi) <= Combine(lo', hi') <==> Decode(lo, hi) <= Decode(lo', hi')
    ensures Decode(lo, hi) == Decode(lo', hi') <==> lo == lo' && hi == hi'
  {  }

  /** The (left, right) sample of pixel `j` of a readback buffer: bytes
      `4j` and `4j+1` carry the left channel, `4j+2` and `4j+3` the right. */
  function DecodePixel(px: seq<Byte>, j: nat): (lr: (real, real))
    requires 4 * j + 3 < |px|
  {
    (Decode(px[4 * j], px[4 * j + 1]), Decode(px[4 * j + 2], px[4 * j + 3]))
  }

  /** The left sample is determined by bytes `4j`, `4j+1` alone and the right
      sample by bytes `4j+2`, `4j+3` alone: two readbacks give the same left
      (right) sample exactly when they agree on that channel's two bytes. */
  lemma ChannelsIndependent(px: seq<Byte>, qx: seq<Byte>, j: nat)
    requires 4 * j + 3 < |px| && 4 * j + 3 < |qx|
    ensures DecodePixel(px, j).0 == DecodePixel(qx, j).0
            <==> px[4 * j] == qx[4 * j] && px[4 * j + 1] == qx[4 * j + 1]
    ensures DecodePixel(px, j).1 == DecodePixel(qx, j).1
            <==> px[4 * j + 2] == qx[4 * j + 2] && px[4 * j + 3] == qx[4 * j + 3]
  {  }

  /** Overwriting one channel's bytes leaves the other channel's sample as it was. */
  lemma RewriteRightKeepsLeft(px: seq<Byte>, j: nat, lo: Byte, hi: Byte)
    requires 4 * j + 3 < |px|
    ensures DecodePixel(px[4 * j + 2 := lo][4 * j + 3 := hi], j).0 == DecodePixel(px, j).0
    ensures DecodePixel(px[4 * j + 2 := lo][4 * j + 3 := hi], j).1 == Decode(lo, hi)
  {
  }

  // ---------------------------------------------------------------------------
  // Encode: the shader footer
  // ---------------------------------------------------------------------------

  /** The footer's quantisation of a synthesized value into a code: the
      largest integer not above `(0.5 + 0.5 y) * 65536`. Every `y` in
      [-1, 1) lands in 16 bits; `y = 1` lands one past them. */
  function Quantize(y: real): (v: int)
    ensures v as real <= (0.5 + 0.5 * y) * ENCODE_SCALE < v as real + 1.0
    ensures -1.0 <= y < 1.0 ==> 0 <= v <= MAX_CODE
    ensures y == 1.0 ==> v == MAX_CODE + 1
  {
    ((0.5 + 0.5 * y) * ENCODE_SCALE).Floor
  }

  /** A larger synthesized value never gets a smaller code. */
  lemma QuantizeMonotone(y: real, y': real)
    requires y <= y'
    ensures Quantize(y) <= Quantize(y')
  {
  }

  /** The footer's split of a code into the low and high channel numerators.
      GLSL's `mod` floors, which for the positive divisor 256 agrees with
      Dafny's `%`; likewise `floor(v / 256.0)` agrees with `/`. The parts
      recombine to the code, and the high part fits a byte exactly when the
      code fits 16 bits. */
  function Split(v: int): (parts: (int, int))
    ensures 0 <= parts.0 < 256
    ensures parts.0 + 256 * parts.1 == v
    ensures 0 <= v <= MAX_CODE <==> 0 <= parts.1 < 256
  {
    (v % 256, v / 256)
  }

  /** The footer's four colour channels for a stereo value, as written:
      (left low, left high, right low, right high), each a numerator over 255. */
  datatype Colour = Colour(r: real, g: real, b: real, a: real)

  function FooterColour(y: (real, real)): (c: Colour)
    ensures c.r * 255.0 + 256.0 * (c.g * 255.0) == Quantize(y.0) as real
    ensures c.b * 255.0 + 256.0 * (c.a * 255.0) == Quantize(y.1) as real
    ensures 0.0 <= c.r <= 1.0 && 0.0 <= c.b <= 1.0
    ensures -1.0 <= y.0 < 1.0 ==> 0.0 <= c.r <= 1.0 && 0.0 <= c.g <= 1.0
    ensures -1.0 <= y.1 < 1.0 ==> 0.0 <= c.b <= 1.0 && 0.0 <= c.a <= 1.0
  {
    var l := Split(Quantize(y.0));
    var r := Split(Quantize(y.1));
    Colour(l.0 as real / 255.0, l.1 as real / 255.0, r.0 as real / 255.0, r.1 as real / 255.0)
  }

  /** The 8-bit colour write that sits between the footer and the readback:
      the channel is clamped to [0, 1] and `c * 255` rounded to the nearest
      integer (the fixed-point conversion of an unsigned normalised target). */
  function ToByte(c: real): (b: Byte)
    ensures c <= 0.0 ==> b == 0
    ensures c >= 1.0 ==> b == 255
    ensures 0.0 <= c <= 1.0 ==> c * 255.0 - 0.5 < b as real <= c * 255.0 + 0.5
  {
    if c <= 0.0 then 0 else if c >= 1.0 then 255 else (c * 255.0 + 0.5).Floor
  }

  /** A channel holding `k / 255` for a byte `k` is written back as `k`. */
  lemma ToByteExact(k: Byte)
    ensures ToByte(k as real / 255.0) == k
  {
  }

  /** The (low, high) bytes that reach the readback for one channel whose
      footer saw `y`, with the footer as written. */
  function EncodeAsWritten(y: real): (bytes: (Byte, Byte))
    ensures -1.0 <= y < 1.0 ==> Combine(bytes.0, bytes.1) == Quantize(y)
  {
    var parts := Split(Quantize(y));
    ToByteExact(parts.0);
    (ToByte(parts.0 as real / 255.0), ToByte(parts.1 as real / 255.0))
  }

  /** With the footer as written, the full-scale value `y = 1` quantises to
      65536, one past 16 bits; its high channel 256/255 exceeds the colour
      range and is clamped, so it is read back as 65280 and decodes to about
      0.992, about 0.0078 short of 1 — further from 1 than a slightly
      smaller `y`, whose code is 65535 and which decodes to exactly 1. Just
      below -1 the code is -1, whose low part 255 survives the write while
      the high part -1 is clamped to 0, so it decodes to about -0.992, about
      0.0078 above -1. */
  lemma FullScaleDoesNotRoundTrip()
    ensures Quantize(1.0) == MAX_CODE + 1
    ensures FooterColour((1.0, 1.0)).g == 256.0 / 255.0
    ensures EncodeAsWritten(1.0) == (0, 255)
    ensures Decode(0, 255) == 65280.0 / 65535.0 * 2.0 - 1.0
    ensures Decode(0, 255) < 1.0 - TOLERANCE
    ensures EncodeAsWritten(1.0 - 1.0 / 32768.0) == (255, 255)
    ensures Combine(0, 255) < Combine(255, 255)
    ensures Quantize(-1.0 - 1.0 / 65536.0) == -1
    ensures EncodeAsWritten(-1.0 - 1.0 / 65536.0) == (255, 0)
    ensures Decode(255, 0) == 255.0 / 65535.0 * 2.0 - 1.0
    ensures Decode(255, 0) > -1.0 + TOLERANCE
  {  }

  /** The four bytes of one pixel: a readback element per colour channel. */
  type Quad = s: seq<Byte> | |s| == 4 witness [0, 0, 0, 0]

  /** The four bytes the 8-bit target holds after the footer, as written,
      wrote the fragment colour for the stereo value `y`. */
  function FooterBytes(y: (real, real)): Quad
  {
    var c := FooterColour(y);
    [ToByte(c.r), ToByte(c.g), ToByte(c.b), ToByte(c.a)]
  }

  /** The bytes the footer's four channels are written as are, channel by
      channel, the as-written encodings of the left and right values. */
  lemma FooterWritesEncoding(y: (real, real))
    ensures FooterBytes(y)
            == [EncodeAsWritten(y.0).0, EncodeAsWritten(y.0).1, EncodeAsWritten(y.1).0, EncodeAsWritten(y.1).1]
  {
    var l := Split(Quantize(y.0));
    var r := Split(Quantize(y.1));
    var c := FooterColour(y);
    assert c.r == l.0 as real / 255.0 && c.g == l.1 as real / 255.0;
    assert c.b == r.0 as real / 255.0 && c.a == r.1 as real / 255.0;
  }

  /** The code, clamped to 16 bits as the footer evidently intends. */
  function Clamp(v: int): (c: int)
    ensures 0 <= c <= MAX_CODE
    ensures 0 <= v <= MAX_CODE ==> c == v
  {
    if v < 0 then 0 else if v > MAX_CODE then MAX_CODE else v
  }

  /** The corrected footer: as written, but with the code clamped to
      [0, 65535] before the split, so the high channel never leaves the
      colour range. It agrees with the footer as written on [-1, 1). */
  function Encode(y: real): (bytes: (Byte, Byte))
    ensures Combine(bytes.0, bytes.1) == Clamp(Quantize(y))
    ensures -1.0 <= y < 1.0 ==> bytes == EncodeAsWritten(y)
  {
    var parts := Split(Clamp(Quantize(y)));
    ToByteExact(parts.0);
    ToByteExact(parts.1);
    (ToByte(parts.0 as real / 255.0), ToByte(parts.1 as real / 255.0))
  }

  /** A larger synthesized value never gets a smaller code from the corrected footer. */
  lemma EncodeMonotone(y: real, y': real)
    requires y <= y'
    ensures Combine(Encode(y).0, Encode(y).1) <= Combine(Encode(y').0, Encode(y').1)
  {  }

  /** Encoding with the corrected footer and decoding recovers every value in
      [-1, 1] to within 2/65535, and recovers both ends exactly. */
  lemma RoundTrip(y: real)
    requires -1.0 <= y <= 1.0
    ensures y - TOLERANCE <= Decode(Encode(y).0, Encode(y).1) <= y + TOLERANCE
    ensures y == -1.0 ==> Decode(Encode(y).0, Encode(y).1) == -1.0
    ensures y == 1.0 ==> Decode(Encode(y).0, Encode(y).1) == 1.0
  {  }
}
