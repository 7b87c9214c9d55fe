/**
 Vocabulary shared by every part of the controller input component: the
 `GestureType` and `GestureDirection` enumerations, the event that the
 static `OnGestureDetected` callback receives, and controller ids.
 */
module InputTypes {

  /** A value that may be absent (a disconnected controller, an unmapped case). */
  datatype Option<+T> = None | Some(value: T)

  /** A controller id as the platform reports it: a byte. */
  newtype ControllerId = x: int | 0 <= x < 256

  /** `GestureType`; the enumeration's `None` member is written `NoType`. */
  datatype GestureType = NoType | Swipe

  /** `GestureDirection`; the enumeration's `None` member is written `NoDirection`. */
  datatype GestureDirection = NoDirection | Left | Right | Up | Down

  /** The arguments of one `OnGestureDetected` call, less the sender. */
  datatype GestureEvent = GestureEvent(kind: GestureType, direction: GestureDirection)

  predicate IsVertical(d: GestureDirection) {
    d == Up || d == Down
  }

  predicate IsHorizontal(d: GestureDirection) {
    d == Left || d == Right
  }

  /** A swipe in one of the four touchpad directions. */
  predicate IsCardinalSwipe(e: GestureEvent) {
    e.kind == Swipe && (IsVertical(e.direction) || IsHorizontal(e.direction))
  }
}
