/**
 The preview panel's transport: the state the panel keeps around the
 rendered buffer (error text, loaded flag, auto-play flag, playback window,
 displayed position, clock anchor) and the transitions that change it —
 the range slider, the Play button, the per-frame position poll, the
 auto-play checkbox and the `setShader` message.

 Audio-context time is a parameter (`now`); started buffer sources are
 recorded as `Voice`s. Starting a voice does not stop earlier ones, so
 `voices` only grows and its last element is the current node.
 */
module Transport {
  import opened Renderer

  /** A started buffer source: `start(0, offset, duration)` called at
      context time `started`; it plays buffer seconds
      `[offset, offset + duration)`. */
  datatype Voice = Voice(started: real, offset: real, duration: real)

  /** The buffer position, in seconds, a voice is playing at time `now`. */
  function Playhead(v: Voice, now: real): real
  {
    v.offset + (now - v.started)
  }

  /** What the rasterizer's error callback reports about the composed program. */
  datatype Diagnostic = Clean | ShaderError(info: string)

  /** The outcome of compiling a shader and rasterising its passes. */
  datatype Compiled = Compiled(diagnostic: Diagnostic, raster: Raster)

  /** The GPU, as a function of the shader text. */
  type Gpu = string -> Compiled

  /** A command the handlers ignore: any but `setShader`. */
  type OtherCommand = s: string | s != "setShader" witness ""

  /** A message from the host editor. */
  datatype Message = SetShader(shader: string) | Other(command: OtherCommand)

  datatype Player = Player(
    left: seq<real>,
    right: seq<real>,
    error: string,
    loaded: bool,
    autoPlay: bool,
    start: real,
    end: real,
    current: real,
    lastTimeStamp: real,
    voices: seq<Voice>)

  /** The state every transition keeps: both channel buffers have the length
      they were created with, and the playback window is not inverted. */
  ghost predicate Valid(p: Player, sr: SampleRate)
  {
    && |p.left| == BufferLength(sr)
    && |p.right| == BufferLength(sr)
    && p.start <= p.end
  }

  /** The panel as it first renders: a silent buffer of the full length, no
      error, nothing loaded, auto-play off, the window spanning the whole
      track, no voice, the clock anchored at the context's current time. */
  function Initial(sr: SampleRate, now: real): (p: Player)
    ensures Valid(p, sr)
    ensures forall k :: 0 <= k < |p.left| ==> p.left[k] == 0.0 && p.right[k] == 0.0
    ensures p.start == 0.0 && p.end == DURATION as real
    ensures p.current == p.start && p.lastTimeStamp == now
    ensures !p.loaded && !p.autoPlay && p.error == "" && p.voices == []
  {
    var silence := seq(BufferLength(sr), _ => 0.0);
    Player(silence, silence, "", false, false, 0.0, DURATION as real, 0.0, now, [])
  }

  /** The range slider: whichever order the two thumbs arrive in, the window
      becomes their minimum and maximum; nothing else changes. */
  function SelectRange(p: Player, a: real, b: real): (q: Player)
    ensures q.start <= q.end
    ensures multiset{q.start, q.end} == multiset{a, b}
    ensures q == p.(start := q.start, end := q.end)
  {
    p.(start := if a <= b then a else b, end := if a <= b then b else a)
  }

  /** Play: anchor the clock at `now` and start one more voice at offset
      `start` for `end - start` seconds, which ends exactly at `end` and is
      never negative in a valid state. Earlier voices are kept. */
  function Play(p: Player, now: real): (q: Player)
    ensures |q.voices| == |p.voices| + 1
    ensures q.voices[..|p.voices|] == p.voices
    ensures var v := q.voices[|p.voices|];
            && v.started == now == q.lastTimeStamp
            && v.offset == p.start
            && v.offset + v.duration == p.end
            && (p.start <= p.end ==> v.duration >= 0.0)
    ensures q == p.(lastTimeStamp := now, voices := q.voices)
  {
    p.(lastTimeStamp := now, voices := p.voices + [Voice(now, p.start, p.end - p.start)])
  }

  /** One animation frame: while there is a current node, the displayed
      position becomes `start` plus the time elapsed since the anchor;
      without one nothing changes. Only the displayed position is touched. */
  function Animate(p: Player, now: real): (q: Player)
    ensures |p.voices| == 0 ==> q == p
    ensures q == p.(current := q.current)
  {
    if |p.voices| > 0 then p.(current := p.start + now - p.lastTimeStamp) else p
  }

  /** Polled at the instant of Play, the position is the window's start. */
  lemma PositionAtPlay(p: Player, now: real)
    ensures Animate(Play(p, now), now).current == p.start
  {
  }

  /** The polled position never moves backwards while no transition intervenes. */
  lemma PositionMonotone(p: Player, now: real, later: real)
    requires now <= later
    ensures Animate(p, now).current <= Animate(p, later).current
  {
  }

  /** While the voice Play started is sounding, the polled position is the
      buffer position that voice is playing, and it stays inside the window. */
  lemma PositionTracksVoice(p: Player, at: real, now: real)
    requires p.start <= p.end
    requires at <= now <= at + (p.end - p.start)
    ensures var q := Play(p, at);
            && Animate(q, now).current == Playhead(q.voices[|p.voices|], now)
            && p.start <= Animate(q, now).current <= p.end
  {
  }

  /** The message handler. `setShader` clears the error, compiles and renders
      every pass (the error callback may set the error text on the way),
      marks the buffer loaded and, if auto-play is on, plays. Rendering is
      not abandoned on a compile error. Any other command is ignored. */
  function HandleMessage(p: Player, msg: Message, gpu: Gpu, now: real): (q: Player)
    ensures msg.Other? ==> q == p
    ensures msg.SetShader? ==>
              var c := gpu(msg.shader);
              && q.loaded
              && (c.diagnostic.Clean? ==> q.error == "")
              && (c.diagnostic.ShaderError? ==> q.error == c.diagnostic.info)
              && |q.left| == |p.left| && |q.right| == |p.right|
              && (forall k :: 0 <= k < |q.left| ==> q.left[k] == LeftAt(c.raster, k))
              && (forall k :: 0 <= k < |q.right| ==> q.right[k] == RightAt(c.raster, k))
              && (p.autoPlay <==> |q.voices| == |p.voices| + 1)
              && |q.voices| >= |p.voices| && q.voices[..|p.voices|] == p.voices
              && (!p.autoPlay ==> q.voices == p.voices && q.lastTimeStamp == p.lastTimeStamp)
              && (p.autoPlay ==> q.lastTimeStamp == now && q.voices[|p.voices|] == Voice(now, p.start, p.end - p.start))
              && q.start == p.start && q.end == p.end && q.autoPlay == p.autoPlay && q.current == p.current
  {
    match msg
    case Other(_) => p
    case SetShader(shader) =>
      var cleared := p.(error := "");
      var compiled := gpu(shader);
      var reported := match compiled.diagnostic
        case Clean => cleared
        case ShaderError(info) => cleared.(error := info);
      var rendered := reported.(left := RenderedLeft(compiled.raster, |p.left|),
                                right := RenderedRight(compiled.raster, |p.right|));
      var done := rendered.(loaded := true);
      if p.autoPlay then Play(done, now) else done
  }

  /** Everything that can happen to the panel; ticking the auto-play
      checkbox sets the flag and nothing else. */
  datatype Event =
    | RangeChanged(a: real, b: real)
    | PlayClicked(at: real)
    | Frame(at: real)
    | AutoPlayChecked(on: bool)
    | Received(msg: Message, gpu: Gpu, at: real)

  function Step(p: Player, e: Event): Player
  {
    match e
    case RangeChanged(a, b) => SelectRange(p, a, b)
    case PlayClicked(at) => Play(p, at)
    case Frame(at) => Animate(p, at)
    case AutoPlayChecked(on) => p.(autoPlay := on)
    case Received(msg, gpu, at) => HandleMessage(p, msg, gpu, at)
  }

  function Run(p: Player, events: seq<Event>): Player
    decreases |events|
  {
    if |events| == 0 then p else Run(Step(p, events[0]), events[1..])
  }

  /** Every transition keeps the buffers' lengths and an uninverted window. */
  lemma StepPreservesValid(p: Player, sr: SampleRate, e: Event)
    requires Valid(p, sr)
    ensures Valid(Step(p, e), sr)
  {
  }

  /** Over any sequence of events the buffers are never resized and the
      window is never inverted, so every voice ever started has a
      non-negative duration. */
  lemma {:induction false} RunPreservesValid(p: Player, sr: SampleRate, events: seq<Event>)
    requires Valid(p, sr)
    ensures Valid(Run(p, events), sr)
    ensures forall n :: |p.voices| <= n < |Run(p, events).voices| ==> Run(p, events).voices[n].duration >= 0.0
    decreases |events|
  {
    if |events| > 0 {
      var p' := Step(p, events[0]);
      StepPreservesValid(p, sr, events[0]);
      VoicesOnlyGrow(p, events[0]);
      RunPreservesValid(p', sr, events[1..]);
      RunKeepsVoices(p', events[1..]);
    }
  }

  /** A step never removes or alters a started voice, and any voice it adds
      has a non-negative duration when the window is not inverted. */
  lemma VoicesOnlyGrow(p: Player, e: Event)
    ensures |Step(p, e).voices| >= |p.voices|
    ensures Step(p, e).voices[..|p.voices|] == p.voices
    ensures p.start <= p.end ==>
              forall n :: |p.voices| <= n < |Step(p, e).voices| ==> Step(p, e).voices[n].duration >= 0.0
  {
  }

  /** Over any run, the voices started before it are kept as they were. */
  lemma {:induction false} RunKeepsVoices(p: Player, events: seq<Event>)
    ensures |Run(p, events).voices| >= |p.voices|
    ensures Run(p, events).voices[..|p.voices|] == p.voices
    decreases |events|
  {
    if |events| > 0 {
      var p' := Step(p, events[0]);
      VoicesOnlyGrow(p, events[0]);
      RunKeepsVoices(p', events[1..]);
    }
  }
}
