/**
 The earlier, stand-alone player: the same footer, constants and block loop,
 but no error text, no playback window and no auto-play switch. Every
 `setShader` message renders the whole buffer and then starts one more
 voice over the whole buffer from offset 0.
 */
module Legacy {
  import opened Codec
  import opened Renderer
  import opened Transport

  datatype LegacyPlayer = LegacyPlayer(left: seq<real>, right: seq<real>, voices: seq<Voice>)

  /** The whole buffer, in seconds. */
  function TrackSeconds(sr: SampleRate): (s: real)
    ensures s == DURATION as real
  {
    BufferLength(sr) as real / sr as real
  }

  /** The message handler: `setShader` overwrites both channels over all
      passes and only then starts a voice at offset 0 lasting the whole
      track; earlier voices keep playing. Other commands are ignored. */
  function HandleMessage(p: LegacyPlayer, sr: SampleRate, msg: Message, gpu: string -> Raster, now: real)
    : (q: LegacyPlayer)
    ensures msg.Other? ==> q == p
    ensures msg.SetShader? ==>
              var raster := gpu(msg.shader);
              && |q.left| == |p.left| && |q.right| == |p.right|
              && (forall k :: 0 <= k < |q.left| ==> q.left[k] == LeftAt(raster, k))
              && (forall k :: 0 <= k < |q.right| ==> q.right[k] == RightAt(raster, k))
              && |q.voices| == |p.voices| + 1
              && q.voices[..|p.voices|] == p.voices
              && q.voices[|p.voices|] == Voice(now, 0.0, DURATION as real)
  {
    match msg
    case Other(_) => p
    case SetShader(shader) =>
      var raster := gpu(shader);
      LegacyPlayer(RenderedLeft(raster, |p.left|), RenderedRight(raster, |p.right|),
                   p.voices + [Voice(now, 0.0, TrackSeconds(sr))])
  }

  /** After a `setShader` message every sample of both channels lies in [-1, 1]. */
  lemma SamplesInRange(p: LegacyPlayer, sr: SampleRate, shader: string, gpu: string -> Raster, now: real)
    ensures var q := HandleMessage(p, sr, SetShader(shader), gpu, now);
            && (forall k :: 0 <= k < |q.left| ==> -1.0 <= q.left[k] <= 1.0)
            && (forall k :: 0 <= k < |q.right| ==> -1.0 <= q.right[k] <= 1.0)
  {  }

  /** With an ideal rasterizer, the voice a `setShader` message starts plays,
      at each buffer index `k`, the shader's value at time `k / sampleRate`
      to within the codec's tolerance whenever that value lies in [-1, 1). */
  lemma PlaysTheShader(p: LegacyPlayer, sr: SampleRate, shader: string, sound: Sound, now: real, k: nat)
    requires |p.left| == BufferLength(sr) && |p.right| == BufferLength(sr)
    requires k < BufferLength(sr)
    ensures var q := HandleMessage(p, sr, SetShader(shader), _ => IdealRaster(sound, sr), now);
            var y := sound(k as real / sr as real);
            && q.voices[|p.voices|].offset == 0.0
            && (-1.0 <= y.0 < 1.0 ==> y.0 - TOLERANCE <= q.left[k] <= y.0 + TOLERANCE)
            && (-1.0 <= y.1 < 1.0 ==> y.1 - TOLERANCE <= q.right[k] <= y.1 + TOLERANCE)
  {
    IdealRenderRoundTrip(sound, sr, k);
  }
}
