/**
 The touchpad swipe detector that `MLControllerInput.Update` runs once per
 frame. Its state is the pair (`tapEnabled`, `lastFrameProcessed`); each
 frame it reads the connected controller's first touch (active flag and the
 x, y position and z force), and the frame number, and calls the static
 `OnGestureDetected` callback zero, one or two times. Here a frame is a pure
 step from the old state to the new state and the calls it makes, in order.
 */
module Touchpad {
  import opened InputTypes

  /** Force a touch must exceed to count as a press. */
  const PressForce: real := 0.5
  /** Force an active touch must fall below to re-arm the detector. */
  const ReleaseForce: real := 0.5
  /** Force above which the detector stays armed right after a press. */
  const RearmForce: real := 0.7
  /** Distance from the centre of the pad an axis must exceed to give a direction. */
  const AxisThreshold: real := 0.5
  /** A press is processed only when more than this many frames have passed. */
  const CooldownFrames: int := 5

  /** The first touch of the connected controller: `Touch1Active` and `Touch1PosAndForce`. */
  datatype TouchSample = TouchSample(active: bool, x: real, y: real, z: real)

  datatype SwipeState = SwipeState(tapEnabled: bool, lastFrameProcessed: int)

  /** The field initialisers of the component. */
  const Initial: SwipeState := SwipeState(true, 0)

  /** The state after one frame, and the gestures reported during it, in call order. */
  datatype StepResult = StepResult(state: SwipeState, events: seq<GestureEvent>)

  predicate Pressed(t: TouchSample) {
    t.active && t.z > PressForce
  }

  predicate Released(t: TouchSample) {
    !t.active || t.z < ReleaseForce
  }

  /** A press the detector is armed for. */
  predicate Qualifies(s: SwipeState, t: TouchSample) {
    Pressed(t) && s.tapEnabled
  }

  predicate CooledDown(s: SwipeState, frame: int) {
    frame - s.lastFrameProcessed > CooldownFrames
  }

  /** The frame gets past every guard and looks at the touch position. */
  predicate Fires(s: SwipeState, t: TouchSample, frame: int, subscribed: bool) {
    subscribed && Qualifies(s, t) && CooledDown(s, frame)
  }

  /**
   At most two events, and when there are two the first is vertical and the
   second horizontal: so never Up with Down, never Left with Right.
   */
  predicate AxisOrdered(es: seq<GestureEvent>) {
    && |es| <= 2
    && forall i, j :: 0 <= i < j < |es| ==> IsVertical(es[i].direction) && IsHorizontal(es[j].direction)
  }

  /** The vertical check: Up above the threshold, otherwise Down below its negation. */
  function VerticalSwipe(y: real): (es: seq<GestureEvent>)
    ensures |es| <= 1
    ensures forall e :: e in es ==> e.kind == Swipe && IsVertical(e.direction)
    ensures GestureEvent(Swipe, Up) in es <==> y > AxisThreshold
    ensures GestureEvent(Swipe, Down) in es <==> y < -AxisThreshold
  {
    if y > AxisThreshold then [GestureEvent(Swipe, Up)]
    else if y < -AxisThreshold then [GestureEvent(Swipe, Down)]
    else []
  }

  /** The horizontal check: Right above the threshold, otherwise Left below its negation. */
  function HorizontalSwipe(x: real): (es: seq<GestureEvent>)
    ensures |es| <= 1
    ensures forall e :: e in es ==> e.kind == Swipe && IsHorizontal(e.direction)
    ensures GestureEvent(Swipe, Right) in es <==> x > AxisThreshold
    ensures GestureEvent(Swipe, Left) in es <==> x < -AxisThreshold
  {
    if x > AxisThreshold then [GestureEvent(Swipe, Right)]
    else if x < -AxisThreshold then [GestureEvent(Swipe, Left)]
    else []
  }

  /**
   One frame of the touchpad branch, given that a controller is connected.
   `subscribed` says whether `OnGestureDetected` has any subscriber.
   */
  function Step(s: SwipeState, t: TouchSample, frame: int, subscribed: bool): (r: StepResult)
    // without a subscriber the branch is skipped entirely
    ensures !subscribed ==> r == StepResult(s, [])
    // nothing is reported unless every guard holds
    ensures r.events != [] ==> Fires(s, t, frame, subscribed)
    ensures forall e :: e in r.events ==> IsCardinalSwipe(e)
    ensures AxisOrdered(r.events)
    // the cooldown restarts whenever it is passed, whether or not a direction was found
    ensures r.state.lastFrameProcessed == if Fires(s, t, frame, subscribed) then frame else s.lastFrameProcessed
    // an armed press re-arms exactly when it is hard, cooldown or not
    ensures subscribed && Qualifies(s, t) ==> r.state.tapEnabled == (t.z > RearmForce)
    // otherwise a release arms, and anything else leaves the flag alone
    ensures subscribed && !Qualifies(s, t) && Released(t) ==> r.state.tapEnabled
    ensures !Qualifies(s, t) && !Released(t) ==> r.state.tapEnabled == s.tapEnabled
  {
    if !subscribed then
      StepResult(s, [])
    else if Qualifies(s, t) then
      if CooledDown(s, frame) then
        StepResult(SwipeState(t.z > RearmForce, frame), VerticalSwipe(t.y) + HorizontalSwipe(t.x))
      else
        StepResult(s.(tapEnabled := t.z > RearmForce), [])
    else if Released(t) then
      StepResult(s.(tapEnabled := true), [])
    else
      StepResult(s, [])
  }

  /**
   One frame of `Update`: no connected controller (input not started, no
   controller found, or no controller connected) leaves everything as it was.
   */
  function Update(s: SwipeState, pad: Option<TouchSample>, frame: int, subscribed: bool): (r: StepResult)
    // only a connected controller with a subscriber can change anything
    ensures r.state != s || r.events != [] ==> pad.Some? && subscribed
    // a report needs every guard of the touchpad branch
    ensures r.events != [] ==> pad.Some? && Fires(s, pad.value, frame, subscribed)
    // the cooldown mark never moves back
    ensures r.state.lastFrameProcessed >= s.lastFrameProcessed
    // with a controller, the frame is the one the description of a frame pins down
    ensures pad.Some? ==> StepSpec(s, pad.value, frame, subscribed, r)
  {
    match pad
    case None => StepResult(s, [])
    case Some(t) =>
      StepMeetsSpec(s, t, frame, subscribed);
      Step(s, t, frame, subscribed)
  }

  /**
   A description of one frame that does not say how it is computed: which
   directions are reported, in what order, and what becomes of each field.
   */
  ghost predicate StepSpec(s: SwipeState, t: TouchSample, frame: int, subscribed: bool, r: StepResult) {
    var fires := Fires(s, t, frame, subscribed);
    && (GestureEvent(Swipe, Up) in r.events <==> fires && t.y > AxisThreshold)
    && (GestureEvent(Swipe, Down) in r.events <==> fires && t.y < -AxisThreshold)
    && (GestureEvent(Swipe, Right) in r.events <==> fires && t.x > AxisThreshold)
    && (GestureEvent(Swipe, Left) in r.events <==> fires && t.x < -AxisThreshold)
    && (forall e :: e in r.events ==> IsCardinalSwipe(e))
    && AxisOrdered(r.events)
    && r.state.lastFrameProcessed == (if fires then frame else s.lastFrameProcessed)
    && r.state.tapEnabled == (
         if !subscribed then s.tapEnabled
         else if Qualifies(s, t) then t.z > RearmForce
         else if Released(t) then true
         else s.tapEnabled)
  }

  /** `Step` meets the description. */
  lemma StepMeetsSpec(s: SwipeState, t: TouchSample, frame: int, subscribed: bool)
    ensures StepSpec(s, t, frame, subscribed, Step(s, t, frame, subscribed))
  {
  }

  /** The description admits no other outcome: it pins down `Step` completely. */
  lemma SpecDeterminesStep(s: SwipeState, t: TouchSample, frame: int, subscribed: bool, r: StepResult)
    requires StepSpec(s, t, frame, subscribed, r)
    ensures r == Step(s, t, frame, subscribed)
  {
    var r' := Step(s, t, frame, subscribed);
    StepMeetsSpec(s, t, frame, subscribed);
    SameDirectionsSameEvents(r.events, r'.events);
  }

  /** Two axis-ordered sequences of swipes holding the same cardinal directions are equal. */
  lemma SameDirectionsSameEvents(a: seq<GestureEvent>, b: seq<GestureEvent>)
    requires AxisOrdered(a) && AxisOrdered(b)
    requires forall e :: e in a ==> IsCardinalSwipe(e)
    requires forall e :: e in b ==> IsCardinalSwipe(e)
    requires forall d :: IsVertical(d) || IsHorizontal(d) ==> (GestureEvent(Swipe, d) in a <==> GestureEvent(Swipe, d) in b)
    ensures a == b
  {
    forall e | e in a
      ensures e in b
    {
      assert e == GestureEvent(Swipe, e.direction);
    }
    forall e | e in b
      ensures e in a
    {
      assert e == GestureEvent(Swipe, e.direction);
    }
    if |a| > 0 {
      assert a[0] in b;
    }
    if |b| > 0 {
      assert b[0] in a;
    }
    if |a| == 2 {
      assert a[1] in b;
    }
    if |b| == 2 {
      assert b[1] in a;
    }
  }

  /** Releasing is idempotent: once a release has been seen, the same sample again changes nothing. */
  lemma ReleaseIdempotent(s: SwipeState, t: TouchSample, frame: int, frame': int, subscribed: bool)
    requires Released(t)
    ensures Step(s, t, frame, subscribed).events == []
    ensures Step(s, t, frame, subscribed).state.lastFrameProcessed == s.lastFrameProcessed
    ensures var s' := Step(s, t, frame, subscribed).state;
            Step(s', t, frame', subscribed) == StepResult(s', [])
  {
  }

  /** An active touch at exactly the press force is neither a press nor a release. */
  lemma BoundaryForceChangesNothing(s: SwipeState, t: TouchSample, frame: int, subscribed: bool)
    requires t.active && t.z == PressForce
    ensures Step(s, t, frame, subscribed) == StepResult(s, [])
  {
  }

  /** A soft press (at most the press force) never reports anything and never restarts the cooldown. */
  lemma SoftTouchReportsNothing(s: SwipeState, t: TouchSample, frame: int, subscribed: bool)
    requires !t.active || t.z <= PressForce
    ensures Step(s, t, frame, subscribed).events == []
    ensures Step(s, t, frame, subscribed).state.lastFrameProcessed == s.lastFrameProcessed
  {
  }
}
