/** The timeline playback controller of test/capyle/playbackcontrols.py:
    whether the timeline is playing, the frame shown, the last frame, the
    loop flag and the delay between frames. The widgets it drives are left
    out; only the state they show is modelled. */
module Playback {
  import opened Common
  import Utils

  /** The delay between checks of the play state while paused, in ms. */
  const UpdateDelay := 200

  /** The controller's fields; frameDelay is None until set_fps has run
      (the attribute does not exist before then). */
  datatype Controls = Controls(playing: bool, frame: int, maxframe: int, loop: bool, frameDelay: Option<int>)

  /** The frame shown lies within the timeline. */
  predicate InTimeline(c: Controls) {
    0 <= c.frame <= c.maxframe
  }

  /** The state __init__ sets up. */
  const Initial := Controls(false, 0, 0, false, None)

  /** reset: paused at frame 0. */
  function Rewound(c: Controls): (r: Controls)
    ensures !r.playing && r.frame == 0
    ensures r.(playing := c.playing, frame := c.frame) == c
  {
    c.(playing := false, frame := 0)
  }

  /** play_pause. */
  function Toggled(c: Controls): (r: Controls)
    ensures r.maxframe == c.maxframe && r.loop == c.loop && r.frameDelay == c.frameDelay
    ensures r.playing == !c.playing
    ensures c.playing ==> r.frame == c.frame
    ensures !c.playing && c.frame == c.maxframe ==> r.frame == 0
    ensures !c.playing && c.frame != c.maxframe ==> r.frame == c.frame
  {
    if c.playing then c.(playing := false)
    else
      var c1 := if c.frame == c.maxframe then Rewound(c) else c;
      c1.(playing := true)
  }

  /** step_frame: forward moves to the next frame, wraps to 0 at the last
      frame when looping, and otherwise stops playback; backward moves to
      the previous frame unless at frame 0. */
  function Stepped(c: Controls, forward: bool): (r: Controls)
    ensures r.maxframe == c.maxframe && r.loop == c.loop && r.frameDelay == c.frameDelay
    ensures forward && c.frame < c.maxframe ==> r == c.(frame := c.frame + 1)
    ensures forward && c.frame == c.maxframe && c.loop ==> r == c.(frame := 0)
    ensures forward && c.frame >= c.maxframe && !(c.frame == c.maxframe && c.loop) ==> r == c.(playing := false)
    ensures !forward ==> r == c.(frame := if c.frame > 0 then c.frame - 1 else c.frame)
  {
    if forward then
      if c.frame < c.maxframe then c.(frame := c.frame + 1)
      else if c.frame == c.maxframe && c.loop then c.(frame := 0)
      else c.(playing := false)
    else if c.frame > 0 then c.(frame := c.frame - 1)
    else c
  }

  /** scrub: the slider's value becomes the frame shown. */
  function Scrubbed(c: Controls, x: int): (r: Controls)
    ensures r.frame == x && r.(frame := c.frame) == c
  {
    c.(frame := x)
  }

  /** refresh: a new timeline of maxframe + 1 frames, shown from frame 0,
      paused. */
  function Refreshed(c: Controls, maxframe: int): (r: Controls)
    ensures !r.playing && r.frame == 0 && r.maxframe == maxframe
    ensures r.loop == c.loop && r.frameDelay == c.frameDelay
  {
    var c1 := Rewound(c).(maxframe := maxframe);
    Scrubbed(c1, c1.frame)
  }

  /** Python's `//`, which rounds toward minus infinity. */
  function FloorDiv(a: int, b: int): int
    requires b != 0
  {
    if b > 0 then a / b else (-a) / (-b)
  }

  /** FloorDiv is the floor of the exact quotient, for either sign of b. */
  lemma FloorDivIsFloor(a: int, b: int)
    requires b != 0
    ensures b > 0 ==> FloorDiv(a, b) * b <= a < (FloorDiv(a, b) + 1) * b
    ensures b < 0 ==> FloorDiv(a, b) * b >= a > (FloorDiv(a, b) + 1) * b
  {
    if b < 0 {
      var q, r := (-a) / (-b), (-a) % (-b);
      assert -a == (-b) * q + r && 0 <= r < -b;
      assert a == q * b - r;
    }
  }

  /** set_fps: the delay is 1000 // fps milliseconds; fps 0 raises
      ZeroDivisionError and leaves the state alone. */
  function FpsSet(c: Controls, fps: int): (r: Result<Controls>)
    ensures r.Err? <==> fps == 0
    ensures r.Err? ==> r.error == ZeroDivision
    ensures r.Ok? ==> r.value.(frameDelay := c.frameDelay) == c && r.value.frameDelay.Some?
    ensures r.Ok? && fps > 0 ==> r.value.frameDelay.value * fps <= 1000 < (r.value.frameDelay.value + 1) * fps
    ensures r.Ok? && 0 < fps <= 1000 ==> r.value.frameDelay.value >= 1
  {
    if fps == 0 then Err(ZeroDivision)
    else
      FloorDivIsFloor(1000, fps);
      Ok(c.(frameDelay := Some(FloorDiv(1000, fps))))
  }

  /** One call of update: while playing, step forward and wait the frame
      delay (an unset delay raises AttributeError after the step); while
      paused, wait UpdateDelay. Returns the new state and the delay before
      the next call. */
  function Tick(c: Controls): (r: (Controls, Result<int>))
    ensures c.playing ==> r.0 == Stepped(c, true)
    ensures !c.playing ==> r == (c, Ok(UpdateDelay))
    ensures c.playing && c.frameDelay.None? ==> r.1 == Err(MissingValue)
    ensures c.playing && c.frameDelay.Some? ==> r.1 == Ok(c.frameDelay.value)
  {
    if c.playing then
      (Stepped(c, true), if c.frameDelay.Some? then Ok(c.frameDelay.value) else Err(MissingValue))
    else (c, Ok(UpdateDelay))
  }

  /** Every operation keeps the frame within the timeline, given slider
      values within it and a non-negative last frame on refresh. */
  lemma InTimelineKept(c: Controls, forward: bool, x: int, m: int, fps: int)
    requires InTimeline(c)
    ensures InTimeline(Rewound(c))
    ensures InTimeline(Toggled(c))
    ensures InTimeline(Stepped(c, forward))
    ensures 0 <= x <= c.maxframe ==> InTimeline(Scrubbed(c, x))
    ensures m >= 0 ==> InTimeline(Refreshed(c, m))
    ensures FpsSet(c, fps).Ok? ==> InTimeline(FpsSet(c, fps).value)
    ensures InTimeline(Tick(c).0)
  {
  }

  /** The initial state is in the timeline. */
  lemma InitialInTimeline()
    ensures InTimeline(Initial) && !Initial.playing
  {
  }

  /** Stepping forward and then back returns to the same state when there
      is a next frame; stepping back and then forward does so when there is
      a previous frame. */
  lemma StepRoundTrip(c: Controls)
    requires InTimeline(c)
    ensures c.frame < c.maxframe ==> Stepped(Stepped(c, true), false) == c
    ensures c.frame > 0 ==> Stepped(Stepped(c, false), true) == c
  {
  }

  /** Pausing and playing again resumes at the same frame, unless it was
      the last one, where play starts over from frame 0. */
  lemma PauseThenPlay(c: Controls)
    requires c.playing
    ensures Toggled(Toggled(c)).playing
    ensures c.frame != c.maxframe ==> Toggled(Toggled(c)) == c
    ensures c.frame == c.maxframe ==> Toggled(Toggled(c)) == c.(frame := 0)
  {
  }

  /** n forward steps, as n ticks of update perform while playing. */
  function Forward(c: Controls, n: nat): (r: Controls)
    ensures r.maxframe == c.maxframe && r.loop == c.loop && r.frameDelay == c.frameDelay
    decreases n
  {
    if n == 0 then c else Forward(Stepped(c, true), n - 1)
  }

  /** Without loop, playback walks to the last frame one step at a time
      and the step after that stops it there. */
  lemma {:induction false} PlaysToEnd(c: Controls, k: nat)
    requires InTimeline(c) && !c.loop && c.playing
    requires k <= c.maxframe - c.frame
    ensures Forward(c, k) == c.(frame := c.frame + k)
    ensures Forward(c, c.maxframe - c.frame + 1) == c.(frame := c.maxframe, playing := false)
    decreases c.maxframe - c.frame
  {
    if c.frame < c.maxframe {
      var c' := Stepped(c, true);
      assert c' == c.(frame := c.frame + 1);
      if k > 0 {
        PlaysToEnd(c', k - 1);
      } else {
        PlaysToEnd(c', 0);
      }
    } else {
      assert Forward(c, 1) == Forward(c.(playing := false), 0);
    }
  }

  /** With loop set, playback cycles through the maxframe + 1 frames. */
  lemma {:induction false} LoopCycles(c: Controls, k: nat)
    requires InTimeline(c) && c.loop
    ensures Forward(c, k) == c.(frame := (c.frame + k) % (c.maxframe + 1))
    decreases k
  {
    var n := c.maxframe + 1;
    if k == 0 {
      Utils.DivModUnique(c.frame, n, 0, c.frame);
    } else {
      var c' := Stepped(c, true);
      var f' := if c.frame < c.maxframe then c.frame + 1 else 0;
      assert c' == c.(frame := f');
      LoopCycles(c', k - 1);
      var q := (c.frame + k) / n;
      var r := (c.frame + k) % n;
      if c.frame < c.maxframe {
        assert f' + (k - 1) == c.frame + k;
      } else {
        assert f' + (k - 1) == n * (q - 1) + r;
        Utils.DivModUnique(f' + (k - 1), n, q - 1, r);
      }
    }
  }

  /** The playback controller, its fields updated in place. */
  class PlaybackControls {
    var playing: bool
    var currentFrame: int
    var maxframe: int
    var loop: bool
    var frameDelay: Option<int>

    function State(): Controls
      reads this
    {
      Controls(playing, currentFrame, maxframe, loop, frameDelay)
    }

    /** __init__: paused at frame 0 of a one-frame timeline. */
    constructor()
      ensures State() == Initial
    {
      playing := false;
      currentFrame := 0;
      maxframe := 0;
      loop := false;
      frameDelay := None;
    }

    method PlayPause()
      modifies this
      ensures State() == Toggled(old(State()))
    {
      if playing {
        playing := false;
      } else {
        if currentFrame == maxframe {
          Reset();
        }
        playing := true;
      }
    }

    method StepFrame(forward: bool)
      modifies this
      ensures State() == Stepped(old(State()), forward)
    {
      if forward {
        if currentFrame < maxframe {
          currentFrame := currentFrame + 1;
        } else if currentFrame == maxframe && loop {
          currentFrame := 0;
        } else {
          playing := false;
        }
      } else {
        if currentFrame > 0 {
          currentFrame := currentFrame - 1;
        }
      }
    }

    method Scrub(x: int)
      modifies this
      ensures State() == Scrubbed(old(State()), x)
    {
      currentFrame := x;
    }

    method SetFps(fps: int) returns (r: Result<int>)
      modifies this
      ensures r.Err? ==> State() == old(State()) && r.error == ZeroDivision
      ensures r.Ok? ==> FpsSet(old(State()), fps) == Ok(State()) && frameDelay == Some(r.value)
      ensures r.Err? <==> fps == 0
    {
      if fps == 0 {
        return Err(ZeroDivision);
      }
      frameDelay := Some(FloorDiv(1000, fps));
      r := Ok(frameDelay.value);
    }

    method Reset()
      modifies this
      ensures State() == Rewound(old(State()))
    {
      playing := false;
      currentFrame := 0;
    }

    method Refresh(m: int)
      modifies this
      ensures State() == Refreshed(old(State()), m)
    {
      Reset();
      maxframe := m;
      Scrub(currentFrame);
    }

    /** update: the new state and the delay the next call is scheduled
        after. */
    method Update() returns (delay: Result<int>)
      modifies this
      ensures (State(), delay) == Tick(old(State()))
    {
      if playing {
        StepFrame(true);
        if frameDelay.Some? {
          delay := Ok(frameDelay.value);
        } else {
          delay := Err(MissingValue);
        }
      } else {
        delay := Ok(UpdateDelay);
      }
    }
  }
}
