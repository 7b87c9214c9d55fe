/**
 Forwarding of the platform's own touchpad gestures (the handler of the
 input SDK's `OnControllerTouchpadGestureEnd` callback) onto the component's
 `OnGestureDetected` callback, translating the SDK's gesture enumerations
 into the component's `GestureType` and `GestureDirection`.
 */
module SdkGestures {
  import opened InputTypes

  /** The SDK's touchpad gesture type: only its `Swipe` member is told apart. */
  datatype SdkGestureType = SdkSwipe | SdkOtherType

  /** The SDK's touchpad gesture direction: the four directions the handler maps, and any other. */
  datatype SdkDirection = SdkLeft | SdkRight | SdkUp | SdkDown | SdkOtherDirection

  datatype SdkGesture = SdkGesture(kind: SdkGestureType, direction: SdkDirection)

  /** The inner `switch` on the SDK direction; directions it does not list stay `None`. */
  function MapDirection(d: SdkDirection): (r: GestureDirection)
    ensures r == NoDirection <==> d == SdkOtherDirection
    // each listed direction goes to its namesake
    ensures SourceDirection(r) == if d == SdkOtherDirection then None else Some(d)
    ensures IsVertical(r) <==> d == SdkUp || d == SdkDown
    ensures IsHorizontal(r) <==> d == SdkLeft || d == SdkRight
  {
    match d
    case SdkLeft => Left
    case SdkRight => Right
    case SdkUp => Up
    case SdkDown => Down
    case SdkOtherDirection => NoDirection
  }

  /** Which SDK direction a local direction comes from: the partner of `MapDirection`. */
  function SourceDirection(d: GestureDirection): (r: Option<SdkDirection>)
    ensures r == None <==> d == NoDirection
  {
    match d
    case NoDirection => None
    case Left => Some(SdkLeft)
    case Right => Some(SdkRight)
    case Up => Some(SdkUp)
    case Down => Some(SdkDown)
  }

  /** The mapping is one-to-one on the four directions, and `SourceDirection` undoes it. */
  lemma MapDirectionRoundTrip(d: SdkDirection, g: GestureDirection)
    ensures d != SdkOtherDirection ==> SourceDirection(MapDirection(d)) == Some(d)
    ensures SourceDirection(g) == Some(d) ==> MapDirection(d) == g
  {
  }

  lemma MapDirectionInjective(d1: SdkDirection, d2: SdkDirection)
    requires d1 != SdkOtherDirection && d2 != SdkOtherDirection
    requires MapDirection(d1) == MapDirection(d2)
    ensures d1 == d2
  {
  }

  /**
   The gesture-end handler: `own` is the id of the connected controller and
   `subscribed` whether `OnGestureDetected` has a subscriber. Only a swipe is
   reported, with its direction translated; a swipe in a direction the
   handler does not list is still reported, with direction `None`.
   */
  function OnTouchpadGestureEnd(own: ControllerId, id: ControllerId, subscribed: bool, g: SdkGesture): (r: seq<GestureEvent>)
    ensures |r| <= 1
    ensures r != [] <==> id == own && subscribed && g.kind == SdkSwipe
    ensures forall e :: e in r ==> e.kind == Swipe && SourceDirection(e.direction) == (if g.direction == SdkOtherDirection then None else Some(g.direction))
  {
    if id != own || !subscribed then []
    else
      var kind := if g.kind == SdkSwipe then Swipe else NoType;
      var direction := if g.kind == SdkSwipe then MapDirection(g.direction) else NoDirection;
      if kind != NoType then [GestureEvent(kind, direction)] else []
  }
}
