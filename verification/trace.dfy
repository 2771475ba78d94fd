/**
 Runs of the per-frame loop over a sequence of frames, and the debounce
 guarantee the cooldown gives over such runs.
 */
module Trace {
  import opened Wrappers
  import opened Actions
  import opened Cooldown

  /** What the loop feeds the cooldown step in one frame. */
  datatype Frame = Frame(count: int, now: real, detectionTime: real)

  function StepFrame(f: Frame, s: State): Outcome
  {
    Step(f.count, f.now, f.detectionTime, s)
  }

  /** The machine's state before frame `i` of a run started in `s`. */
  function StateAt(s: State, fs: seq<Frame>, i: nat): State
    requires i <= |fs|
    decreases i
  {
    if i == 0 then s else StepFrame(fs[i - 1], StateAt(s, fs, i - 1)).next
  }

  /** What frame `i` of a run started in `s` produces. */
  function OutcomeAt(s: State, fs: seq<Frame>, i: nat): Outcome
    requires i < |fs|
  {
    StepFrame(fs[i], StateAt(s, fs, i))
  }

  /** Frame `i` emits a result record. */
  predicate Emits(s: State, fs: seq<Frame>, i: nat)
    requires i < |fs|
  {
    OutcomeAt(s, fs, i).record.Some?
  }

  /** Frame `k` is where the cooldown re-arms: active before it, idle after it. */
  predicate ResetAt(s: State, fs: seq<Frame>, k: nat)
    requires k < |fs|
  {
    StateAt(s, fs, k).active && !StateAt(s, fs, k + 1).active
  }

  /** Timestamps never go backwards from one frame to the next. */
  predicate NonDecreasing(fs: seq<Frame>)
  {
    forall a :: 0 <= a < |fs| - 1 ==> fs[a].now <= fs[a + 1].now
  }

  /** Running the rest of the frames from the state after the first one is the
      same as continuing the whole run. */
  lemma {:induction false} StateAtTail(s: State, fs: seq<Frame>, j: nat)
    requires 0 < |fs|
    requires j < |fs|
    ensures StateAt(StepFrame(fs[0], s).next, fs[1..], j) == StateAt(s, fs, j + 1)
  {
    if j > 0 {
      StateAtTail(s, fs, j - 1);
    }
  }

  /**
   The loop as it runs: each frame's outcome feeds its state to the next frame.
   Frame `i`'s outcome is the step from the state the first `i` frames left.
   */
  function Run(s: State, fs: seq<Frame>): (outs: seq<Outcome>)
    ensures |outs| == |fs|
    ensures forall i :: 0 <= i < |fs| ==> outs[i] == OutcomeAt(s, fs, i)
    decreases |fs|
  {
    if |fs| == 0 then []
    else
      var o := StepFrame(fs[0], s);
      var rest := Run(o.next, fs[1..]);
      assert forall i :: 1 <= i < |fs| ==> rest[i - 1] == OutcomeAt(s, fs, i) by {
        forall i | 1 <= i < |fs|
          ensures rest[i - 1] == OutcomeAt(s, fs, i)
        {
          StateAtTail(s, fs, i - 1);
        }
      }
      [o] + rest
  }

  /**
   The result log a run writes, one row per triggered action. Every row is
   labelled with the gesture it detected and carries a mapped gesture count, so
   an accuracy computed from this log is 100% by construction.
   */
  function Log(s: State, fs: seq<Frame>): (log: seq<Record>)
    ensures |log| <= |fs|
    ensures forall r :: r in log ==>
              r.userId == UserId && r.actual == r.detected && Actionable(r.detected)
    decreases |fs|
  {
    if |fs| == 0 then []
    else
      var o := StepFrame(fs[0], s);
      (if o.record.Some? then [o.record.value] else []) + Log(o.next, fs[1..])
  }

  /** The records a sequence of outcomes carries, in order. */
  function Records(outs: seq<Outcome>): seq<Record>
  {
    if |outs| == 0 then []
    else (if outs[0].record.Some? then [outs[0].record.value] else []) + Records(outs[1..])
  }

  /** The log holds exactly the records of the frames that emit one, in frame order. */
  lemma {:induction false} LogIsRunRecords(s: State, fs: seq<Frame>)
    ensures Log(s, fs) == Records(Run(s, fs))
    decreases |fs|
  {
    if |fs| > 0 {
      var o := StepFrame(fs[0], s);
      LogIsRunRecords(o.next, fs[1..]);
      assert Run(s, fs)[1..] == Run(o.next, fs[1..]);
    }
  }

  /** Non-decreasing from frame to frame means non-decreasing between any two frames. */
  lemma {:induction false} TimeMonotone(fs: seq<Frame>, a: nat, b: nat)
    requires NonDecreasing(fs)
    requires a <= b < |fs|
    ensures fs[a].now <= fs[b].now
    decreases b - a
  {
    if a < b {
      TimeMonotone(fs, a + 1, b);
    }
  }

  /** After a frame emits, the machine stays active with that frame's stamp
      until a frame resets it. */
  lemma {:induction false} HeldUntilReset(s: State, fs: seq<Frame>, i: nat, m: nat)
    requires i < m <= |fs|
    requires Emits(s, fs, i)
    requires forall k :: i < k < m ==> !ResetAt(s, fs, k)
    ensures StateAt(s, fs, m) == State(true, fs[i].now)
    decreases m
  {
    if m > i + 1 {
      HeldUntilReset(s, fs, i, m - 1);
      assert !ResetAt(s, fs, m - 1);
    }
  }

  /** The first reset after an emitting frame comes before the next emitting frame,
      at least the cooldown duration after the first one. */
  lemma {:induction false} FirstReset(s: State, fs: seq<Frame>, i: nat, m: nat, j: nat)
    requires i < m <= j < |fs|
    requires Emits(s, fs, i) && Emits(s, fs, j)
    requires forall k :: i < k < m ==> !ResetAt(s, fs, k)
    ensures exists k :: i < k < j && ResetAt(s, fs, k)
                        && fs[k].now - fs[i].now >= CooldownDuration
    decreases j - m
  {
    HeldUntilReset(s, fs, i, m);
    if m == j {
      assert false;
    } else if ResetAt(s, fs, m) {
      assert fs[m].now - fs[i].now >= CooldownDuration;
    } else {
      FirstReset(s, fs, i, m + 1, j);
    }
  }

  /**
   Debounce: of two frames that both emit a record, the later one comes
   strictly after a frame that re-armed the cooldown at least the cooldown
   duration after the earlier one; with non-decreasing timestamps the two
   records are therefore at least the cooldown duration apart.
   */
  lemma Debounce(s: State, fs: seq<Frame>, i: nat, j: nat)
    requires NonDecreasing(fs)
    requires i < j < |fs|
    requires Emits(s, fs, i) && Emits(s, fs, j)
    ensures exists k :: i < k < j && ResetAt(s, fs, k)
                        && fs[k].now - fs[i].now >= CooldownDuration
    ensures fs[j].now - fs[i].now >= CooldownDuration
  {
    FirstReset(s, fs, i, i + 1, j);
    var k :| i < k < j && ResetAt(s, fs, k) && fs[k].now - fs[i].now >= CooldownDuration;
    TimeMonotone(fs, k, j);
  }

  /** While every frame so far lies less than the cooldown duration after the
      last action, an active machine keeps its state and emits nothing. */
  lemma {:induction false} Cooling(s: State, fs: seq<Frame>, i: nat, m: nat)
    requires i <= m < |fs|
    requires StateAt(s, fs, i).active
    requires forall k :: i <= k < m ==> fs[k].now - StateAt(s, fs, i).lastActionTime < CooldownDuration
    ensures StateAt(s, fs, m) == StateAt(s, fs, i)
    ensures !Emits(s, fs, m)
    decreases m - i
  {
    if m > i {
      Cooling(s, fs, i, m - 1);
    }
  }

  /**
   Once the machine is active, no frame emits a record and the machine's state
   does not change as long as each frame before the last lies less than the
   cooldown duration after the last action, however many actionable gestures
   arrive and in whatever order the clock readings come.
   */
  lemma QuietWindow(s: State, fs: seq<Frame>, i: nat, j: nat)
    requires i <= j < |fs|
    requires StateAt(s, fs, i).active
    requires forall k :: i <= k < j ==> fs[k].now - StateAt(s, fs, i).lastActionTime < CooldownDuration
    ensures forall k :: i <= k <= j ==> !Emits(s, fs, k) && StateAt(s, fs, k) == StateAt(s, fs, i)
  {
    forall k | i <= k <= j
      ensures !Emits(s, fs, k) && StateAt(s, fs, k) == StateAt(s, fs, i)
    {
      Cooling(s, fs, i, k);
    }
  }
}
