/**
 Gesture-to-action mapping: a raised-finger count selects one of four
 home-automation actions, and every other count is an unknown gesture.
 */
module Actions {
  import opened Wrappers

  datatype Action = LightOff | FanOn | FanOff | LightOn | UnknownGesture

  /** The counts that select an action (the list `[0, 1, 4, 5]` of the trigger check). */
  predicate Actionable(count: int)
  {
    count == 0 || count == 1 || count == 4 || count == 5
  }

  /** The mapping itself, total over all integers. */
  function PerformAction(count: int): (a: Action)
    ensures a != UnknownGesture <==> Actionable(count)
  {
    if count == 0 then LightOff
    else if count == 1 then FanOn
    else if count == 4 then FanOff
    else if count == 5 then LightOn
    else UnknownGesture
  }

  /** The gesture count that selects `a`, if any: the inverse of the mapping. */
  function GestureFor(a: Action): (c: Option<int>)
    ensures c.Some? <==> a != UnknownGesture
    ensures c.Some? ==> Actionable(c.value) && PerformAction(c.value) == a
    ensures forall n :: a != UnknownGesture && PerformAction(n) == a ==> c == Some(n)
  {
    match a
    case LightOff => Some(0)
    case FanOn => Some(1)
    case FanOff => Some(4)
    case LightOn => Some(5)
    case UnknownGesture => None
  }

  /** The text shown on screen for an action. */
  function Label(a: Action): string
  {
    match a
    case LightOff => "\U{1F4A1} Light OFF"
    case FanOn => "\U{1F300} Fan ON"
    case FanOff => "\U{1F300} Fan OFF"
    case LightOn => "\U{1F4A1} Light ON"
    case UnknownGesture => "Unknown Gesture"
  }

  /** Mapping a count and then asking which count selects the result gives back
      the count exactly when it is actionable. */
  lemma MappingRoundTrip(count: int)
    ensures GestureFor(PerformAction(count)) == (if Actionable(count) then Some(count) else None)
  {
  }

  /** The mapping table: 0 switches the light off, 1 the fan on, 4 the fan off
      and 5 the light on. */
  lemma MappingTable()
    ensures PerformAction(0) == LightOff
    ensures PerformAction(1) == FanOn
    ensures PerformAction(4) == FanOff
    ensures PerformAction(5) == LightOn
  {
  }

  /** Counts 2 and 3, and everything outside 0..5, are unknown gestures. */
  lemma UnknownCounts(count: int)
    ensures PerformAction(count) == UnknownGesture <==> count == 2 || count == 3 || count < 0 || count > 5
  {
  }

  /** Different actions have different on-screen texts, so the text identifies the action. */
  lemma LabelsDistinct(a: Action, b: Action)
    requires a != b
    ensures Label(a) != Label(b)
  {
  }
}
