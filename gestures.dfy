/**
 * The gesture catalogue: a static gesture is a named hand pose, a dynamic
 * gesture an ordered list of static keyframes that must be performed within
 * `execTime` seconds. Everything in the core matches gestures by name.
 */
module Gestures {
  datatype StaticGesture = StaticGesture(name: string)

  datatype DynamicGesture = DynamicGesture(name: string, orderedKeyFrames: seq<StaticGesture>, execTime: real)

  /** A catalogue entry is one or the other; the source tells them apart with `is`. */
  datatype Gesture = Static(staticGesture: StaticGesture) | Dynamic(dynamicGesture: DynamicGesture)
  {
    function Name(): string {
      match this
      case Static(s) => s.name
      case Dynamic(d) => d.name
    }
  }
}
