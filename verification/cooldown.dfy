/**
 The cooldown state machine run once per camera frame.

 Within a frame the trigger check comes first and the reset check second:
 an idle machine seeing an actionable count fires the action, emits one
 result record and becomes active; an active machine shows a waiting message;
 afterwards, an active machine whose last action lies at least the cooldown
 duration in the past becomes idle again. Time is supplied by the caller.
 */
module Cooldown {
  import opened Wrappers
  import opened Actions
  import Fingers

  /** Minimum time, in seconds, between the starts of two triggered actions. */
  const CooldownDuration: real := 15.0

  /** The subject id written into every result record. */
  const UserId: int := 1

  /** Text shown while the machine is active. */
  const WaitingText: string := "\U{23F3} Waiting for next gesture..."

  /** Whether an action fired recently, and when the last one fired. */
  datatype State = State(active: bool, lastActionTime: real)

  /** The state at program start. */
  const Initial: State := State(false, 0.0)

  /** One row for the result log: subject, labelled gesture, detected gesture,
      and the time spent producing the action. */
  datatype Record = Record(userId: int, actual: int, detected: int, detectionTime: real)

  /** What one frame produces: the action text for the display, the record
      handed to the result log (if any), and the state for the next frame. */
  datatype Outcome = Outcome(text: string, record: Option<Record>, next: State)

  /** Whether the machine fires on this frame. */
  predicate Fires(count: int, s: State)
  {
    !s.active && Actionable(count)
  }

  /**
   One frame of the loop: `count` is the classifier's output, `now` the clock
   at the cooldown check, and `detectionTime` the time the clock measured
   around producing the action (only used when the action fires).
   */
  function Step(count: int, now: real, detectionTime: real, s: State): (o: Outcome)
    // An idle machine and an actionable count: one self-labelled record, the
    // action's text, and an active machine stamped with `now`.
    ensures Fires(count, s) ==>
              o.record == Some(Record(UserId, count, count, detectionTime))
              && o.text == Label(PerformAction(count))
              && o.next == State(true, now)
    // An idle machine and any other count: nothing happens at all.
    ensures !s.active && !Actionable(count) ==>
              o.record == None && o.text == "" && o.next == s
    // An active machine, whatever the count: no record, the waiting text, the
    // same stamp, and idle again only once the cooldown has elapsed.
    ensures s.active ==>
              o.record == None && o.text == WaitingText
              && o.next.lastActionTime == s.lastActionTime
              && (o.next.active <==> now - s.lastActionTime < CooldownDuration)
  {
    var fire := Fires(count, s);
    var text := if fire then Label(PerformAction(count))
                else if s.active then WaitingText
                else "";
    var record := if fire then Some(Record(UserId, count, count, detectionTime)) else None;
    var afterTrigger := if fire then State(true, now) else s;
    var afterReset :=
      if afterTrigger.active && now - afterTrigger.lastActionTime >= CooldownDuration
      then afterTrigger.(active := false)
      else afterTrigger;
    Outcome(text, record, afterReset)
  }

  /** A frame emits a record exactly when it fires, the record's labelled and
      detected gestures always agree, and a firing frame never also resets. */
  lemma RecordIffFires(count: int, now: real, detectionTime: real, s: State)
    ensures Step(count, now, detectionTime, s).record.Some? <==> Fires(count, s)
    ensures var o := Step(count, now, detectionTime, s);
            o.record.Some? ==> o.record.value.actual == o.record.value.detected == count
                               && o.next.active
  {
  }

  /** A frame that clears the cooldown still shows the waiting text and emits
      nothing: an action can fire again only on a later frame. */
  lemma ResetFrameIsQuiet(count: int, now: real, detectionTime: real, s: State)
    requires s.active
    requires !Step(count, now, detectionTime, s).next.active
    ensures Step(count, now, detectionTime, s).record == None
    ensures Step(count, now, detectionTime, s).text == WaitingText
    ensures now - s.lastActionTime >= CooldownDuration
  {
  }

  /** The frame pipeline with no hand in view: the empty landmark list counts as
      a closed fist, so an idle machine switches the light off. */
  lemma NoHandSwitchesLightOff(now: real, detectionTime: real, s: State)
    requires !s.active
    ensures var o := Step(Fingers.Count([]), now, detectionTime, s);
            o.text == Label(LightOff)
            && o.record == Some(Record(UserId, 0, 0, detectionTime))
  {
  }
}
