# Gesture home automation: per-frame decision logic

This project is a Dafny model of the decision core of `HomeAutomation/main_serial.py`. That program
watches a webcam and counts how many fingers a hand holds up. It maps the count to a
home-automation action (light or fan, on or off). A 15-second cooldown keeps one held gesture
from firing again and again.

The model has six modules:

- `Wrappers` (`wrappers.dfy`): the `Option` type.
- `Fingers` (`fingers.dfy`): landmark triples `[id, x, y]` and main_serial.py's tip table `[4, 8, 12, 16, 20]`.
  It has the thumb rule (tip 4 left of landmark 3) and the finger rule (tip above the landmark two
  below it). `FingerState` holds the five flags. `Count` is the classifier's result, and
  `CountFinger` is the classifier loop as main_serial.py writes it.
- `Actions` (`actions.dfy`): the five actions and `PerformAction`, the count-to-action map. It also
  has the inverse map `GestureFor` and the on-screen labels.
- `Cooldown` (`cooldown.dfy`): the state `(active, lastActionTime)`, the result record
  `(user_id, actual, detected, detection_time)`, and `Step`. `Step` is the body of the frame loop,
  pulled out as a pure function from a count, the current time and a state to an action text, an
  optional record and the next state.
- `Trace` (`trace.dfy`) runs `Step` over a sequence of frames. It proves the debounce guarantee:
  consecutive records are at least 15 seconds apart. It also proves that a record can only follow
  the frame that re-armed the cooldown, on a strictly later frame.
- `Scenarios` (`scenarios.dfy`): concrete frame sequences started from the program's initial state.

Time is an exact `real` that the caller supplies. The clock reading at the cooldown check is
`now`. The time the program measures around producing an action is `detectionTime`; it goes into
the record unchanged.

## Behaviour of main_serial.py worth knowing

- Within a frame the trigger check (main_serial.py:146) runs before the reset check
  (main_serial.py:163). A frame on which the cooldown has run out therefore only re-arms the
  machine: it shows the waiting text (main_serial.py:159-160) and emits nothing. The next action
  fires on a later frame at the earliest. Count 1 at t=0 and count 5 at t=16 write one record; a
  further count 5 at t=16.1 writes the second (`Scenarios.ResetFrameDelaysNextAction`).
- `countFinger` returns 0 for an empty landmark list (main_serial.py:32, 53), the same count as a
  closed fist. With the cooldown idle, a frame with no hand in view therefore fires Light OFF and
  writes a log row (main_serial.py:146-157). `Fingers.NoHandLooksLikeFist`,
  `Cooldown.NoHandSwitchesLightOff` and `Scenarios.NoHandFramesSwitchLightOff` prove this.
- Every record is labelled with the gesture it detected (main_serial.py:152-154), so an accuracy
  computed from the log is 100% by construction. `Trace.Log` states this.

## Model

| member | source | states |
|---|---|---|
| Fingers.FingerState | HomeAutomation/main_serial.py:35-51 | the five flags are exactly, in order, `x[4] < x[3]`, `y[8] < y[6]`, `y[12] < y[10]`, `y[16] < y[14]`, `y[20] < y[18]`: the thumb rule, then the tip rule for each tip key after 4 |
| Fingers.Count | HomeAutomation/main_serial.py:31-53 | the raised-finger count lies in 0..5, and an empty landmark list (no hand) counts 0 |
| Fingers.CountFinger | HomeAutomation/main_serial.py:31-53 | main_serial.py's loop over the tip table (the thumb key skipped, each later key compared with the landmark two before it) builds exactly the five finger flags, and it returns their number of set flags; an empty list gives no flags and 0 |
| Fingers.CountTrueBound | HomeAutomation/main_serial.py:52 | counting the raised flags never exceeds the number of flags |
| Fingers.CountIsSumOfRules | HomeAutomation/main_serial.py:33-52 | for a detected hand, the count equals the number of true predicates among `x[4]<x[3]`, `y[8]<y[6]`, `y[12]<y[10]`, `y[16]<y[14]`, `y[20]<y[18]` |
| Fingers.CountExtremes | HomeAutomation/main_serial.py:33-52 | the count is 0 if and only if every finger is down, and 5 if and only if every finger is up |
| Fingers.NoHandLooksLikeFist | HomeAutomation/main_serial.py:32-53 | a well-formed closed fist and the empty list (no hand) yield the same count, 0 |
| Actions.PerformAction | HomeAutomation/main_serial.py:86-96 | the map yields a real action if and only if the count is one of 0, 1, 4, 5 |
| Actions.GestureFor | HomeAutomation/main_serial.py:86-96 | each real action has exactly one selecting count: it is actionable, the map sends it back to the action, and every count the map sends to the action is that one; the unknown gesture has none |
| Actions.MappingRoundTrip | HomeAutomation/main_serial.py:86-96 | mapping a count and taking the selecting count of the result gives the count back if it is actionable, and nothing otherwise |
| Actions.MappingTable | HomeAutomation/main_serial.py:87-94 | count 0 maps to Light OFF, 1 to Fan ON, 4 to Fan OFF and 5 to Light ON |
| Actions.UnknownCounts | HomeAutomation/main_serial.py:95-96 | the unknown gesture comes from exactly the counts 2 and 3 and those outside 0..5 |
| Actions.LabelsDistinct | HomeAutomation/main_serial.py:86-96 | different actions have different texts, so the text identifies the action it shows |
| Cooldown.Step | HomeAutomation/main_serial.py:142-165 | idle and actionable: one record `(1, count, count, t)`, the action's text, and an active state stamped `now`; idle and not actionable: no record, empty text, state unchanged; active: no record, the waiting text, the stamp kept, and idle afterwards if and only if `now - stamp >= 15` |
| Cooldown.RecordIffFires | HomeAutomation/main_serial.py:146-165 | a frame emits a record if and only if the machine was idle and the count actionable; the record's actual and detected gestures equal the count; a firing frame never also resets |
| Cooldown.ResetFrameIsQuiet | HomeAutomation/main_serial.py:159-165 | a frame that clears the cooldown emits nothing and shows the waiting text, and at least 15 s have passed since the last action |
| Cooldown.NoHandSwitchesLightOff | HomeAutomation/main_serial.py:146-157 | with the cooldown idle, the count of an empty landmark list fires Light OFF and writes the record `(1, 0, 0, t)` |
| Trace.Run | HomeAutomation/main_serial.py:130-165 | the frame loop, which threads each frame's state into the next, produces at frame i the step taken from the state the first i frames left |
| Trace.LogIsRunRecords | HomeAutomation/main_serial.py:146-157 | the result log of a run holds exactly the records of the frames that emit one, in frame order |
| Trace.Log | HomeAutomation/main_serial.py:151-154 | the result log of a run has at most one row per frame, and every row has user id 1, actual equal to detected, and an actionable gesture |
| Trace.HeldUntilReset | HomeAutomation/main_serial.py:156-165 | after a frame emits, the machine stays active with that frame's timestamp until some frame resets it |
| Trace.FirstReset | HomeAutomation/main_serial.py:146-165 | between two emitting frames there is a resetting frame that lies at least 15 s after the first of them |
| Trace.Debounce | HomeAutomation/main_serial.py:146-165 | with non-decreasing timestamps, two emitting frames are at least 15 s apart, and the later one comes strictly after a frame that re-armed the cooldown |
| Trace.QuietWindow | HomeAutomation/main_serial.py:159-165 | once active, no frame emits and the state does not change as long as every earlier frame lies less than 15 s after the last action, whatever order the clock readings come in |
| Scenarios.HeldGestureFiresOnce | HomeAutomation/main_serial.py:146-165 | one finger held for five frames 0.1 s apart writes exactly one record `(1, 1, 1, t)`, and the later frames show the waiting text |
| Scenarios.ResetFrameDelaysNextAction | HomeAutomation/main_serial.py:146-165 | count 1 at 0 s then count 5 at 16 s writes one record; a further count 5 at 16.1 s writes the second |
| Scenarios.NoHandFramesSwitchLightOff | HomeAutomation/main_serial.py:146-165 | three frames with the count of an empty landmark list (no hand) from the start state write one Light OFF record `(1, 0, 0, t)` |

## Left out

- `findHands` and `findPosition` (main_serial.py:12-29) are left out. They convert MediaPipe's normalised floats to pixels and draw. Their output appears only as a precondition: a list that is empty or has 21 entries (`WellFormedHand`). The classifier itself indexes by position, so it needs only more than 20 entries.
- `fingerLength` (main_serial.py:55-79) is left out. It is float arithmetic (`math.hypot`, `np.interp`) that only drives drawing and printing, and it returns nothing.
- The `led` flag and `simulateLight` are left out because they only print. The console prints at main_serial.py:149 and main_serial.py:164 are left out for the same reason.
- `save_result`, the CSV file and its header are left out because they are I/O. A record is the argument tuple passed to `save_result`. Rounding `detection_time` to 3 decimals happens on writing and is not modelled.
- The clocks (`time.time()`) are supplied by the caller. `now` is the reading at the cooldown check. `detectionTime` is the measured duration of the action. The model does not require that duration to be non-negative.
- The frame-rate estimate, the `cv.putText` overlay drawing, the camera, the display window and the quit key are left out. They are UI and I/O. The action text the overlay shows is modelled, as `Outcome.text`.
- Debounce: assumes non-decreasing timestamps, but `time.time()` (main_serial.py:145) is a wall clock that can step backwards. `Trace.FirstReset` gives the reset frame's 15 s gap after the earlier record without that assumption.
- The values of the tip table (`b'a'`…`b'e'`) are left out because the code never reads them. Only its keys are modelled, in insertion order.
- `HomeAutomation/analyze_results.py` (pandas, scikit-learn and matplotlib over the CSV) and `HomeAutomation/opencv.py` (a webcam demo with no decision logic) are not part of this model.
