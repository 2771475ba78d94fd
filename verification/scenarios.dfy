/**
 Concrete frame sequences from the start state, showing how the trigger check
 and the reset check interact.
 */
module Scenarios {
  import opened Wrappers
  import opened Cooldown
  import opened Trace
  import Fingers

  /** One finger held up for five frames, 0.1 s apart: only the first frame
      fires (Fan ON); the other four show the waiting text. */
  lemma HeldGestureFiresOnce(d: real)
    ensures var fs := [Frame(1, 0.0, d), Frame(1, 0.1, d), Frame(1, 0.2, d),
                       Frame(1, 0.3, d), Frame(1, 0.4, d)];
            Log(Initial, fs) == [Record(UserId, 1, 1, d)]
            && forall i :: 1 <= i < 5 ==> Run(Initial, fs)[i].text == WaitingText
  {
    var fs := [Frame(1, 0.0, d), Frame(1, 0.1, d), Frame(1, 0.2, d),
               Frame(1, 0.3, d), Frame(1, 0.4, d)];
    var active := State(true, 0.0);
    assert StepFrame(fs[0], Initial).next == active;
    assert Log(active, fs[4..]) == [];
    assert Log(active, fs[3..]) == [];
    assert Log(active, fs[2..]) == [];
    assert Log(active, fs[1..]) == [];
  }

  /** The frame at which the cooldown has elapsed only re-arms it: a new
      gesture arriving on that very frame emits nothing, and fires on the next
      frame. */
  lemma ResetFrameDelaysNextAction(d: real)
    ensures Log(Initial, [Frame(1, 0.0, d), Frame(5, 16.0, d)]) == [Record(UserId, 1, 1, d)]
    ensures Log(Initial, [Frame(1, 0.0, d), Frame(5, 16.0, d), Frame(5, 16.1, d)])
            == [Record(UserId, 1, 1, d), Record(UserId, 5, 5, d)]
  {
    var fs := [Frame(1, 0.0, d), Frame(5, 16.0, d), Frame(5, 16.1, d)];
    var active := State(true, 0.0);
    var idle := State(false, 0.0);
    assert StepFrame(fs[0], Initial).next == active;
    assert StepFrame(fs[1], active).next == idle;
    assert Log(idle, fs[2..]) == [Record(UserId, 5, 5, d)];
    assert Log(active, fs[1..]) == [Record(UserId, 5, 5, d)];
    assert Log(active, fs[1..2]) == [];
  }

  /** Three frames with no hand in view from the start state switch the light
      off on the first frame. */
  lemma NoHandFramesSwitchLightOff(d: real)
    ensures var none := Fingers.Count([]);
            Log(Initial, [Frame(none, 0.0, d), Frame(none, 0.1, d), Frame(none, 0.2, d)])
            == [Record(UserId, 0, 0, d)]
  {
    var none := Fingers.Count([]);
    var fs := [Frame(none, 0.0, d), Frame(none, 0.1, d), Frame(none, 0.2, d)];
    var active := State(true, 0.0);
    assert StepFrame(fs[0], Initial).next == active;
    assert Log(active, fs[2..]) == [];
    assert Log(active, fs[1..]) == [];
  }
}
