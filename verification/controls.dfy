/**
 The trigger and button handlers of the controller input component: a
 trigger latch that reports a press once per hold, a bumper flag, and the
 HomeTap button reported on release only. Each handler reacts to one SDK
 callback for one controller id; `own` below is the id of the component's
 connected controller, and callbacks for any other id are ignored.
 */
module Controls {
  import opened InputTypes

  /** Trigger value a trigger-down callback must exceed to count as a press. */
  const TriggerPressValue: real := 0.5

  /** The SDK's controller buttons: the handlers act on Bumper and HomeTap only. */
  datatype Button = Bumper | HomeTap | OtherButton

  /** The fields `triggerIsDown` and `_bumperDown`. */
  datatype ButtonFlags = ButtonFlags(triggerIsDown: bool, bumperDown: bool)

  /** Both fields start false. */
  const InitialFlags: ButtonFlags := ButtonFlags(false, false)

  /** The UnityEvents a handler invokes: `HandleTriggerDown`, `HandleBumperDown`, `HandleBumperUp`, `HandleHomeTap`. */
  datatype Signal = TriggerPressed | BumperPressed | BumperReleased | HomeTapped

  datatype Reaction = Reaction(flags: ButtonFlags, signals: seq<Signal>)

  /** A trigger press is reported, and latched, only on the first strong enough callback of a hold. */
  function OnTriggerDown(f: ButtonFlags, own: ControllerId, id: ControllerId, value: real): (r: Reaction)
    ensures id != own ==> r == Reaction(f, [])
    ensures r.flags.bumperDown == f.bumperDown
    ensures r.signals == [] || r.signals == [TriggerPressed]
    // no repeat while held
    ensures r.signals != [] <==> id == own && value > TriggerPressValue && !f.triggerIsDown
    // the latch is set exactly by a report, and never cleared here
    ensures r.flags.triggerIsDown <==> f.triggerIsDown || r.signals != []
  {
    if id != own then
      Reaction(f, [])
    else if value > TriggerPressValue && !f.triggerIsDown then
      Reaction(f.(triggerIsDown := true), [TriggerPressed])
    else
      Reaction(f, [])
  }

  /** Trigger release clears the latch whatever the value, and reports nothing. */
  function OnTriggerUp(f: ButtonFlags, own: ControllerId, id: ControllerId, value: real): (r: Reaction)
    ensures r.signals == []
    ensures r.flags.bumperDown == f.bumperDown
    ensures r.flags.triggerIsDown <==> f.triggerIsDown && id != own
  {
    if id != own then Reaction(f, []) else Reaction(f.(triggerIsDown := false), [])
  }

  /** Button press: the bumper sets its flag and is reported; HomeTap and other buttons do nothing. */
  function OnButtonDown(f: ButtonFlags, own: ControllerId, id: ControllerId, b: Button): (r: Reaction)
    ensures r.flags.triggerIsDown == f.triggerIsDown
    ensures id != own || b != Bumper ==> r == Reaction(f, [])
    ensures r.signals == [BumperPressed] <==> id == own && b == Bumper
    ensures r.flags.bumperDown <==> f.bumperDown || (id == own && b == Bumper)
  {
    if id != own then Reaction(f, [])
    else
      match b
      case Bumper => Reaction(f.(bumperDown := true), [BumperPressed])
      case HomeTap => Reaction(f, [])
      case OtherButton => Reaction(f, [])
  }

  /** Button release: the bumper clears its flag and is reported; HomeTap is reported here only. */
  function OnButtonUp(f: ButtonFlags, own: ControllerId, id: ControllerId, b: Button): (r: Reaction)
    ensures r.flags.triggerIsDown == f.triggerIsDown
    ensures id != own || b == OtherButton ==> r == Reaction(f, [])
    ensures r.signals == [HomeTapped] <==> id == own && b == HomeTap
    ensures r.signals == [BumperReleased] <==> id == own && b == Bumper
    ensures r.flags.bumperDown <==> f.bumperDown && !(id == own && b == Bumper)
  {
    if id != own then Reaction(f, [])
    else
      match b
      case Bumper => Reaction(f.(bumperDown := false), [BumperReleased])
      case HomeTap => Reaction(f, [HomeTapped])
      case OtherButton => Reaction(f, [])
  }

  /** The input SDK callbacks the component subscribes to, other than the touchpad gesture. */
  datatype ControllerEvent =
    | TriggerDown(id: ControllerId, value: real)
    | TriggerUp(id: ControllerId, value: real)
    | ButtonDown(id: ControllerId, button: Button)
    | ButtonUp(id: ControllerId, button: Button)

  /** Dispatch of one callback to its handler. */
  function Handle(f: ButtonFlags, own: ControllerId, ev: ControllerEvent): (r: Reaction)
    ensures ev.id != own ==> r == Reaction(f, [])
    ensures |r.signals| <= 1
    ensures TriggerPressed in r.signals <==> ev.TriggerDown? && ev.id == own && ev.value > TriggerPressValue && !f.triggerIsDown
    ensures BumperPressed in r.signals <==> ev == ButtonDown(own, Bumper)
    ensures BumperReleased in r.signals <==> ev == ButtonUp(own, Bumper)
    ensures HomeTapped in r.signals <==> ev == ButtonUp(own, HomeTap)
  {
    match ev
    case TriggerDown(id, value) => OnTriggerDown(f, own, id, value)
    case TriggerUp(id, value) => OnTriggerUp(f, own, id, value)
    case ButtonDown(id, b) => OnButtonDown(f, own, id, b)
    case ButtonUp(id, b) => OnButtonUp(f, own, id, b)
  }
}
