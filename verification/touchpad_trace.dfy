/**
 Runs of the swipe detector over a sequence of frames, and what holds of
 every run: the cooldown between reporting frames, the silence of soft
 touches and of frames nobody listens to.
 */
module TouchpadTrace {
  import opened InputTypes
  import opened Touchpad

  /** What the host supplies for one frame: the touch (if a controller is connected), the frame number, and whether anyone subscribes. */
  datatype Tick = Tick(pad: Option<TouchSample>, frame: int, subscribed: bool)

  /** A reported gesture together with the frame it was reported in. */
  datatype Emission = Emission(frame: int, event: GestureEvent)

  datatype RunResult = RunResult(state: SwipeState, emissions: seq<Emission>)

  function StepAt(s: SwipeState, k: Tick): StepResult {
    Update(s, k.pad, k.frame, k.subscribed)
  }

  /** Each gesture of one frame, tagged with that frame. */
  function Stamp(frame: int, es: seq<GestureEvent>): (r: seq<Emission>)
    ensures |r| == |es|
    ensures forall e :: e in r ==> e.frame == frame && e.event in es
  {
    seq(|es|, i requires 0 <= i < |es| => Emission(frame, es[i]))
  }

  /** The detector driven by `ticks` from state `s`: the final state and every report, in order. */
  function Run(s: SwipeState, ticks: seq<Tick>): (r: RunResult)
    // the cooldown mark never moves back
    ensures r.state.lastFrameProcessed >= s.lastFrameProcessed
    // every report comes more than the cooldown after the starting mark, and no later than the final mark
    ensures forall e :: e in r.emissions ==> s.lastFrameProcessed + CooldownFrames < e.frame <= r.state.lastFrameProcessed
    ensures forall e :: e in r.emissions ==> IsCardinalSwipe(e.event)
    decreases |ticks|
  {
    if |ticks| == 0 then
      RunResult(s, [])
    else
      var step := StepAt(s, ticks[0]);
      var rest := Run(step.state, ticks[1..]);
      RunResult(rest.state, Stamp(ticks[0].frame, step.events) + rest.emissions)
  }

  /** The state in which the detector meets `ticks[i]`. */
  function StateBefore(s: SwipeState, ticks: seq<Tick>, i: nat): SwipeState
    requires i <= |ticks|
  {
    Run(s, ticks[..i]).state
  }

  /** The gestures reported while processing `ticks[i]`. */
  function EventsAt(s: SwipeState, ticks: seq<Tick>, i: nat): seq<GestureEvent>
    requires i < |ticks|
  {
    StepAt(StateBefore(s, ticks, i), ticks[i]).events
  }

  /** Running two segments one after the other is running their concatenation. */
  lemma RunAppend(s: SwipeState, a: seq<Tick>, b: seq<Tick>)
    ensures Run(s, a + b).state == Run(Run(s, a).state, b).state
    ensures Run(s, a + b).emissions == Run(s, a).emissions + Run(Run(s, a).state, b).emissions
  {
    RunAppendState(s, a, b);
    RunAppendEmissions(s, a, b);
  }

  lemma {:induction false} RunAppendState(s: SwipeState, a: seq<Tick>, b: seq<Tick>)
    ensures Run(s, a + b).state == Run(Run(s, a).state, b).state
    decreases |a|
  {
    if |a| == 0 {
      assert a + b == b;
    } else {
      var step := StepAt(s, a[0]);
      assert (a + b)[0] == a[0];
      assert (a + b)[1..] == a[1..] + b;
      RunAppendState(step.state, a[1..], b);
    }
  }

  lemma {:induction false} RunAppendEmissions(s: SwipeState, a: seq<Tick>, b: seq<Tick>)
    ensures Run(s, a + b).emissions == Run(s, a).emissions + Run(Run(s, a).state, b).emissions
    decreases |a|
  {
    if |a| == 0 {
      assert a + b == b;
    } else {
      var step := StepAt(s, a[0]);
      var head := Stamp(a[0].frame, step.events);
      assert (a + b)[0] == a[0];
      assert (a + b)[1..] == a[1..] + b;
      RunAppendEmissions(step.state, a[1..], b);
      var mid := Run(step.state, a[1..]);
      var tail := Run(mid.state, b).emissions;
      assert head + (mid.emissions + tail) == (head + mid.emissions) + tail;
    }
  }

  /** Once tick `i` has reported a gesture, the mark before every later tick `j` is at least the frame of tick `i`. */
  lemma {:induction false} MarkAfterFiringTick(s: SwipeState, ticks: seq<Tick>, i: nat, j: nat)
    requires i < j <= |ticks|
    requires EventsAt(s, ticks, i) != []
    ensures StateBefore(s, ticks, j).lastFrameProcessed >= ticks[i].frame
  {
    var before := StateBefore(s, ticks, i);
    var step := StepAt(before, ticks[i]);
    assert ticks[..i + 1] == ticks[..i] + [ticks[i]];
    RunAppend(s, ticks[..i], [ticks[i]]);
    assert Run(before, [ticks[i]]).state == Run(step.state, []).state;
    assert step.state.lastFrameProcessed == ticks[i].frame;
    assert ticks[..j] == ticks[..i + 1] + ticks[i + 1..j];
    RunAppend(s, ticks[..i + 1], ticks[i + 1..j]);
  }

  /**
   Cooldown: two different ticks that both report a gesture are more than
   `CooldownFrames` frames apart, whatever order the frame numbers come in.
   */
  lemma CooldownBetweenReportingTicks(s: SwipeState, ticks: seq<Tick>, i: nat, j: nat)
    requires i < j < |ticks|
    requires EventsAt(s, ticks, i) != [] && EventsAt(s, ticks, j) != []
    ensures ticks[j].frame - ticks[i].frame > CooldownFrames
  {
    MarkAfterFiringTick(s, ticks, i, j);
  }

  /** Reports in frame order, any two with different frames more than the cooldown apart. */
  ghost predicate CooldownSpaced(em: seq<Emission>) {
    forall i, j :: 0 <= i < j < |em| ==> em[i].frame == em[j].frame || em[i].frame + CooldownFrames < em[j].frame
  }

  /**
   The same in the report log: the frames of the reports never go down, and
   two reports with different frames are more than the cooldown apart.
   */
  lemma {:induction false} CooldownBetweenEmissions(s: SwipeState, ticks: seq<Tick>)
    ensures CooldownSpaced(Run(s, ticks).emissions)
    decreases |ticks|
  {
    if |ticks| > 0 {
      var step := StepAt(s, ticks[0]);
      var head := Stamp(ticks[0].frame, step.events);
      var rest := Run(step.state, ticks[1..]).emissions;
      CooldownBetweenEmissions(step.state, ticks[1..]);
      assert Run(s, ticks).emissions == head + rest;
      if head != [] {
        assert step.state.lastFrameProcessed == ticks[0].frame;
      }
      SpacedPrefix(head, rest, step.state.lastFrameProcessed);
    }
  }

  /** One frame's reports in front of a spaced log that starts more than the cooldown later. */
  lemma SpacedPrefix(head: seq<Emission>, rest: seq<Emission>, frame: int)
    requires forall e :: e in head ==> e.frame == frame
    requires forall e :: e in rest ==> e.frame > frame + CooldownFrames
    requires CooldownSpaced(rest)
    ensures CooldownSpaced(head + rest)
  {
  }

  /** Frames nobody subscribes to leave the detector exactly as it was. */
  lemma {:induction false} UnsubscribedRunChangesNothing(s: SwipeState, ticks: seq<Tick>)
    requires forall k :: k in ticks ==> !k.subscribed
    ensures Run(s, ticks) == RunResult(s, [])
    decreases |ticks|
  {
    if |ticks| > 0 {
      assert ticks[0] in ticks;
      UnsubscribedRunChangesNothing(s, ticks[1..]);
    }
  }

  /** A touch that is never pressed harder than the press force never reports a gesture. */
  lemma {:induction false} SoftRunReportsNothing(s: SwipeState, ticks: seq<Tick>)
    requires forall k :: k in ticks && k.pad.Some? ==> !k.pad.value.active || k.pad.value.z <= PressForce
    ensures Run(s, ticks).emissions == []
    ensures Run(s, ticks).state.lastFrameProcessed == s.lastFrameProcessed
    decreases |ticks|
  {
    if |ticks| > 0 {
      assert ticks[0] in ticks;
      var step := StepAt(s, ticks[0]);
      if ticks[0].pad.Some? {
        SoftTouchReportsNothing(s, ticks[0].pad.value, ticks[0].frame, ticks[0].subscribed);
      }
      SoftRunReportsNothing(step.state, ticks[1..]);
    }
  }

  /** A hard upward press from the initial state reports Up and, being hard, stays armed. */
  lemma HardUpPress()
    ensures Step(Initial, TouchSample(true, 0.0, 0.8, 0.9), 10, true)
            == StepResult(SwipeState(true, 10), [GestureEvent(Swipe, Up)])
  {
  }

  /** A lighter rightward press reports Right and disarms until the touch is released. */
  lemma LightRightPress()
    ensures Step(Initial, TouchSample(true, 0.8, 0.0, 0.6), 10, true)
            == StepResult(SwipeState(false, 10), [GestureEvent(Swipe, Right)])
  {
  }

  /** A diagonal press reports two gestures, the vertical one first. */
  lemma DiagonalPress()
    ensures Step(Initial, TouchSample(true, -0.8, -0.8, 0.9), 10, true).events
            == [GestureEvent(Swipe, Down), GestureEvent(Swipe, Left)]
  {
  }

  /** A press in the centre reports nothing but still restarts the cooldown. */
  lemma CentrePress()
    ensures Step(Initial, TouchSample(true, 0.0, 0.0, 0.9), 10, true) == StepResult(SwipeState(true, 10), [])
  {
  }

  /** Lifting the finger re-arms a disarmed detector. */
  lemma LiftRearms()
    ensures Step(SwipeState(false, 3), TouchSample(false, 0.0, 0.0, 0.9), 20, true) == StepResult(SwipeState(true, 3), [])
  {
  }

  /** Two hard presses four frames apart: only the first is reported. */
  lemma PressesInsideCooldown()
    ensures var press := Some(TouchSample(true, 0.0, 0.8, 0.9));
            Run(Initial, [Tick(press, 10, true), Tick(press, 14, true)])
            == RunResult(SwipeState(true, 10), [Emission(10, GestureEvent(Swipe, Up))])
  {
    var press := Some(TouchSample(true, 0.0, 0.8, 0.9));
    var ticks := [Tick(press, 10, true), Tick(press, 14, true)];
    assert ticks[1..] == [Tick(press, 14, true)];
    assert ticks[1..][1..] == [];
    var armed := SwipeState(true, 10);
    assert Run(armed, ticks[1..]) == RunResult(armed, []);
    assert Stamp(10, [GestureEvent(Swipe, Up)]) == [Emission(10, GestureEvent(Swipe, Up))];
  }
}
