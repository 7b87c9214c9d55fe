# Magic Leap controller input, modelled in Dafny

This project models the logic of the `MLControllerInput` Unity component
(`Assets/MagicLeap-Examples/Common/Scripts/MLControllerInput.cs`). It covers two
state machines.

- **The touchpad swipe detector.** It runs once per frame in `Update`. Its
  state is `tapEnabled` and `lastFrameProcessed`. Each frame it reads the
  connected controller's first touch and the frame number. It then reports
  zero, one or two swipes through the static `OnGestureDetected` callback.
  Here one frame is the pure function `Touchpad.Step`, which returns the new
  state and the reported gestures in call order. `TouchpadTrace.Run` chains
  frames. Its lemmas cover the cooldown between reporting frames, the silence
  of soft touches, and frames that have no subscriber.
- **The trigger and button handlers** (`Controls`). The trigger latch
  (`triggerIsDown`) reports a press once per hold. The bumper flag
  (`_bumperDown`) follows presses and releases. HomeTap is reported on
  release only. Each handler is a pure function that returns the new flags and
  the UnityEvents it invokes. `ControlsTrace.RunEvents` chains callbacks.
- **Forwarding of the SDK's touchpad gestures** (`SdkGestures`). A swipe is
  passed on with its direction mapped onto the component's `GestureDirection`.
  Any other gesture type is dropped.

Files: `input_types.dfy` holds the shared enumerations and controller ids.
`touchpad.dfy` and `touchpad_trace.dfy` hold the swipe detector.
`controls.dfy` and `controls_trace.dfy` hold the trigger and button handlers.
`sdk_gestures.dfy` holds the gesture forwarding.

Thresholds are `real` constants. The press force is 0.5, the re-arm force is
0.7, the release force is 0.5 and the axis threshold is 0.5. A press needs
more than 5 frames of cooldown. A trigger press needs a value above 0.5.

## Behaviour worth noting

- Re-arming after an armed press is `tapEnabled = z > 0.7` (line 198). It runs
  whether or not the cooldown allowed a report. A hard press therefore stays
  armed and a lighter one disarms (`TouchpadTrace.HardUpPress`,
  `TouchpadTrace.LightRightPress`).
- Re-arming on release needs a strictly smaller force, `z < 0.5` (line 204). An
  active touch at exactly 0.5 changes nothing (`Touchpad.BoundaryForceChangesNothing`).
- The vertical and horizontal checks are independent (lines 180-195). One
  frame can report two gestures, vertical first (`TouchpadTrace.DiagonalPress`).
- The cooldown mark moves to the current frame whenever the cooldown check
  passes, even if no direction is reported (line 196, `TouchpadTrace.CentrePress`).

## Model

| member | source | states |
|---|---|---|
| `Touchpad.VerticalSwipe` | Assets/MagicLeap-Examples/Common/Scripts/MLControllerInput.cs:180-187 | at most one event, always a vertical swipe: Up exactly when y > 0.5, Down exactly when y < -0.5 |
| `Touchpad.HorizontalSwipe` | Assets/MagicLeap-Examples/Common/Scripts/MLControllerInput.cs:188-195 | at most one event, always a horizontal swipe: Right exactly when x > 0.5, Left exactly when x < -0.5 |
| `Touchpad.Step` | Assets/MagicLeap-Examples/Common/Scripts/MLControllerInput.cs:170-208 | with no subscriber nothing changes and nothing is reported; a report needs an active touch, z > 0.5, the armed flag and more than 5 frames since the mark; reports are cardinal swipes, at most one per axis, vertical first; the mark becomes the frame exactly when every guard passes; an armed press leaves the flag equal to z > 0.7, cooldown or not; otherwise a release arms and anything else keeps the flag |
| `Touchpad.Update` | Assets/MagicLeap-Examples/Common/Scripts/MLControllerInput.cs:158-170 | only a frame with a connected controller and a subscriber changes the state or reports; a report needs every guard of the touchpad branch; the cooldown mark never moves back; with a controller, the outcome meets the declarative description of a frame |
| `Touchpad.StepMeetsSpec` | Assets/MagicLeap-Examples/Common/Scripts/MLControllerInput.cs:170-208 | `Step` satisfies a declarative description of a frame: each direction is reported exactly when the frame passes every guard and the coordinate passes its threshold, in axis order, together with the resulting value of each field |
| `Touchpad.SpecDeterminesStep` | Assets/MagicLeap-Examples/Common/Scripts/MLControllerInput.cs:170-208 | any outcome that satisfies that description is the one `Step` computes, so the description is complete |
| `Touchpad.ReleaseIdempotent` | Assets/MagicLeap-Examples/Common/Scripts/MLControllerInput.cs:203-207 | a released touch reports nothing and keeps the mark; a second frame with the same touch changes nothing more |
| `Touchpad.BoundaryForceChangesNothing` | Assets/MagicLeap-Examples/Common/Scripts/MLControllerInput.cs:172-207 | an active touch at exactly force 0.5 is neither press nor release: state and reports unchanged |
| `Touchpad.SoftTouchReportsNothing` | Assets/MagicLeap-Examples/Common/Scripts/MLControllerInput.cs:172-173 | a touch with force at most 0.5, or an inactive one, reports nothing and keeps the mark |
| `TouchpadTrace.Run` | Assets/MagicLeap-Examples/Common/Scripts/MLControllerInput.cs:170-208 | over any run the mark never moves back; every report lies more than 5 frames after the starting mark and no later than the final mark; every report is a cardinal swipe |
| `TouchpadTrace.MarkAfterFiringTick` | Assets/MagicLeap-Examples/Common/Scripts/MLControllerInput.cs:177-196 | after a frame that reports, the mark is at least that frame's number from then on |
| `TouchpadTrace.CooldownBetweenReportingTicks` | Assets/MagicLeap-Examples/Common/Scripts/MLControllerInput.cs:177-178 | two different frames of a run that both report are more than 5 frame numbers apart, in increasing order, whatever frame numbers the host supplies |
| `TouchpadTrace.CooldownBetweenEmissions` | Assets/MagicLeap-Examples/Common/Scripts/MLControllerInput.cs:177-196 | in the report log of any run, two reports either share a frame or the later one is more than 5 frames after the earlier |
| `TouchpadTrace.UnsubscribedRunChangesNothing` | Assets/MagicLeap-Examples/Common/Scripts/MLControllerInput.cs:170 | a run in which nobody subscribes ends in the starting state with no reports |
| `TouchpadTrace.SoftRunReportsNothing` | Assets/MagicLeap-Examples/Common/Scripts/MLControllerInput.cs:172-173 | a run whose touches never exceed force 0.5 reports nothing and keeps the mark |
| `TouchpadTrace.HardUpPress` | Assets/MagicLeap-Examples/Common/Scripts/MLControllerInput.cs:180-198 | from the initial state, a press at (0, 0.8) with force 0.9 in frame 10 reports Up, moves the mark to 10 and stays armed |
| `TouchpadTrace.LightRightPress` | Assets/MagicLeap-Examples/Common/Scripts/MLControllerInput.cs:188-198 | a press at (0.8, 0) with force 0.6 reports Right and disarms |
| `TouchpadTrace.DiagonalPress` | Assets/MagicLeap-Examples/Common/Scripts/MLControllerInput.cs:180-195 | a press at (-0.8, -0.8) reports Down then Left in one frame |
| `TouchpadTrace.CentrePress` | Assets/MagicLeap-Examples/Common/Scripts/MLControllerInput.cs:178-198 | a hard press in the centre reports nothing but moves the mark to the frame |
| `TouchpadTrace.LiftRearms` | Assets/MagicLeap-Examples/Common/Scripts/MLControllerInput.cs:203-206 | an inactive touch arms a disarmed detector and keeps the mark |
| `TouchpadTrace.PressesInsideCooldown` | Assets/MagicLeap-Examples/Common/Scripts/MLControllerInput.cs:177-199 | two hard presses in frames 10 and 14 report only once |
| `SdkGestures.MapDirection` | Assets/MagicLeap-Examples/Common/Scripts/MLControllerInput.cs:330-344 | each of the four listed SDK directions maps to its namesake, and an unlisted one to `None`; vertical SDK directions map to vertical ones, horizontal to horizontal |
| `SdkGestures.SourceDirection` | Assets/MagicLeap-Examples/Common/Scripts/MLControllerInput.cs:330-344 | the inverse of the mapping, which is absent exactly for `None` |
| `SdkGestures.MapDirectionRoundTrip` | Assets/MagicLeap-Examples/Common/Scripts/MLControllerInput.cs:330-344 | mapping a listed SDK direction and mapping it back gives that direction; anything the inverse yields maps back to where it came from |
| `SdkGestures.MapDirectionInjective` | Assets/MagicLeap-Examples/Common/Scripts/MLControllerInput.cs:330-344 | two listed SDK directions with the same local direction are equal |
| `SdkGestures.OnTouchpadGestureEnd` | Assets/MagicLeap-Examples/Common/Scripts/MLControllerInput.cs:318-353 | at most one report, made exactly for a swipe of the own controller with a subscriber; it is a swipe whose direction comes from the SDK direction, or `None` for an unlisted one |
| `Controls.OnTriggerDown` | Assets/MagicLeap-Examples/Common/Scripts/MLControllerInput.cs:241-255 | other controllers are ignored; the press is reported, at most once, exactly when the value exceeds 0.5 and the latch is clear; the latch is set exactly by a report and never cleared; the bumper flag is untouched |
| `Controls.OnTriggerUp` | Assets/MagicLeap-Examples/Common/Scripts/MLControllerInput.cs:257-264 | nothing is ever reported; the latch is cleared for the own controller and kept for others; the bumper flag is untouched |
| `Controls.OnButtonDown` | Assets/MagicLeap-Examples/Common/Scripts/MLControllerInput.cs:292-316 | only the own controller's bumper does anything: it is reported exactly then, and the bumper flag is set exactly then and otherwise kept; HomeTap and other buttons change nothing; the latch is untouched |
| `Controls.OnButtonUp` | Assets/MagicLeap-Examples/Common/Scripts/MLControllerInput.cs:266-290 | HomeTap is reported exactly on the own controller's HomeTap release; bumper release is reported and clears the flag; other buttons and controllers change nothing; the latch is untouched |
| `Controls.Handle` | Assets/MagicLeap-Examples/Common/Scripts/MLControllerInput.cs:230-233 | each callback reaches the handler of its kind: the trigger press is reported exactly for a strong enough TriggerDown of the own controller with the latch clear, a bumper press exactly for its ButtonDown, a bumper release and HomeTap exactly for their ButtonUp; at most one invocation per callback, nothing for another controller |
| `ControlsTrace.RunEvents` | Assets/MagicLeap-Examples/Common/Scripts/MLControllerInput.cs:241-316 | a sequence of callbacks invokes no more events than it has callbacks |
| `ControlsTrace.ForeignEventsChangeNothing` | Assets/MagicLeap-Examples/Common/Scripts/MLControllerInput.cs:241-298 | callbacks from other controllers leave both flags as they were and invoke nothing |
| `ControlsTrace.HandleMatchesEffect` | Assets/MagicLeap-Examples/Common/Scripts/MLControllerInput.cs:241-316 | each handler changes a flag exactly as an event-only description says: a trigger press above 0.5 sets the latch, a trigger release clears it, a bumper press or release sets or clears the bumper flag |
| `ControlsTrace.FlagIsLastSetting` | Assets/MagicLeap-Examples/Common/Scripts/MLControllerInput.cs:241-316 | after any sequence of callbacks each flag holds the setting of the last callback that made one, or its starting value |
| `ControlsTrace.TriggerReportedOncePerHold` | Assets/MagicLeap-Examples/Common/Scripts/MLControllerInput.cs:241-264 | with no trigger release from the own controller, the trigger press is reported at most once, and never if the latch was already set |
| `ControlsTrace.HeldTriggerFromStart` | Assets/MagicLeap-Examples/Common/Scripts/MLControllerInput.cs:241-255 | from the component's initial flags (both false, lines 56 and 100), two strong trigger-down callbacks of the own controller report the press once and leave the latch set |
| `ControlsTrace.HomeTapOncePerRelease` | Assets/MagicLeap-Examples/Common/Scripts/MLControllerInput.cs:283-313 | HomeTap is reported exactly as many times as the own controller's HomeTap button is released |

## Left out

- `Assets/Scripts/AnchorCreator.cs` is not part of this model. It hands raycasts and anchors to the AR Foundation managers. Its only own logic is appending to and clearing a list.
- The `UNITY_EDITOR` keyboard branch (lines 127-156) is left out. It only forwards key presses to the UnityEvents. On a device `HandleTriggerUp` is never invoked: `OnTriggerUp` has no such call, and the model keeps that.
- Unity lifecycle and SDK sessions are left out. This covers `Start` with its static `index` renaming, `InitializeController`, `OnDestroy`, `MLInput.Start`/`Stop` and the subscribe/unsubscribe pairs. They are host calls. `IgnoreSwipe` only decides whether the gesture-end handler is subscribed. A missing controller or a stopped input session appears only as `Touchpad.Update` with no touch.
- The `!= null` checks on the UnityEvents and the static multicast delegate are left out. Invocations are returned as sequences of `Signal` or `GestureEvent`. The sender argument (`this`) is dropped. Whether `OnGestureDetected` has a subscriber is the `subscribed` parameter, because it guards the whole touchpad branch.
- Floating point is left out. Touch coordinates, force and trigger value are `real`, and the constants are exact. For every float input the real comparisons agree with the source's float ones: `0.5f` and `-0.5f` are exact, and no float lies between `0.7f` and 0.7.
- Touchpad.Step: assumes every `OnGestureDetected` subscriber returns normally and leaves the subscription alone during the frame. A subscriber that throws at lines 182-194 aborts `Update` before lines 196 and 198, so the state keeps its old values and the same press is reported again next frame. A subscriber that unsubscribes the last handler during the first call of a diagonal frame makes line 190 invoke a null delegate, with the same effect. The cooldown lemmas of `TouchpadTrace` hold only under this assumption.
- Controls.OnTriggerDown: assumes the connected controller is present. Lines 243, 259, 268, 294 and 320 read `controller.ConnectedController.Id`, which throws, and so changes nothing, when `controller` or `ConnectedController` is null. The model always has the id `own`. It also assumes every `HandleTriggerDown` listener returns normally: line 251 invokes the listeners before line 253 sets the latch, so a listener that throws leaves the latch clear, and the press is reported again on the next trigger-down callback of the same hold. `ControlsTrace.TriggerReportedOncePerHold` holds only under this assumption.
- Controls.OnTriggerUp: the same assumption of a present controller (line 259).
- Controls.OnButtonDown: the same assumption of a present controller (line 294).
- Controls.OnButtonUp: the same assumption of a present controller (line 268).
- SdkGestures.OnTouchpadGestureEnd: the same assumption of a present controller (line 320).
- ControlsTrace.HomeTapOncePerRelease: assumes each handler is subscribed once. While `controller` is null, `Update` calls `InitializeController` every frame (lines 163-166), and each successful `MLInput.Start` subscribes every handler again (lines 230-233). A controller found late would then have each callback handled several times, so HomeTap and the bumper events would be reported several times per callback. The trigger press would still be reported once: the first call sets the latch (line 253) and the repeated calls fail the test at line 247.
- ControlsTrace.RunEvents: assumes each handler is subscribed once, as above. With repeated subscriptions one bumper or HomeTap callback invokes its UnityEvent once per subscription, which breaks the bound of no more invocations than callbacks.
- The frame number is an unbounded `int`. The source subtracts two non-negative 32-bit frame counts, which cannot overflow.
- The SDK's enumerations are not visible here. The model tells apart only the members the handlers use: `Swipe`, the four directions, `Bumper` and `HomeTap`. Every other member is grouped as "other".
- The constant `TriggerThresh` (line 101) is never used by the source, so it is not modelled.
