/**
 Finger classification: how many fingers a detected hand holds up.

 A hand is a list of landmark triples `[id, x, y]` in pixel coordinates, one
 per landmark of the hand model, in landmark order. The list is empty when no
 hand was detected in the frame.
 */
module Fingers {

  /** One landmark of a hand: its index in the hand model and its pixel position. */
  datatype Landmark = Landmark(id: int, x: int, y: int)

  /** Number of landmarks the hand detector reports for one hand. */
  const HandSize: nat := 21

  /** Landmark indices of the five finger tips, thumb first (the keys of
      main_serial.py's tip table, in insertion order). */
  const TipIds: seq<int> := [4, 8, 12, 16, 20]

  /** What the landmark adapter produces for a detected hand: exactly 21
      landmarks whose ids are 0..20 in order. */
  ghost predicate WellFormedHand(lm: seq<Landmark>)
  {
    |lm| == HandSize && forall i :: 0 <= i < |lm| ==> lm[i].id == i
  }

  /** The classifier only looks at landmarks up to index 20, by position. */
  predicate Indexable(lm: seq<Landmark>)
  {
    |lm| > 20
  }

  /** Thumb rule: the thumb is up when its tip lies left of the joint next to it
      (this assumes one particular hand orientation in the mirrored image). */
  predicate ThumbUp(lm: seq<Landmark>)
    requires Indexable(lm)
  {
    lm[4].x < lm[3].x
  }

  /** Finger rule: a non-thumb finger is up when its tip lies above (smaller y)
      the landmark two positions below it on the same finger. */
  predicate TipAbove(lm: seq<Landmark>, tip: int)
    requires Indexable(lm)
    requires 2 <= tip <= 20
  {
    lm[tip].y < lm[tip - 2].y
  }

  /** Whether finger `f` (0 = thumb, then index, middle, ring, pinky) is up. */
  predicate Raised(lm: seq<Landmark>, f: int)
    requires Indexable(lm)
    requires 0 <= f < |TipIds|
  {
    if f == 0 then ThumbUp(lm) else TipAbove(lm, TipIds[f])
  }

  /** The five raised/lowered flags of a hand, thumb first: the thumb rule on
      landmarks 4/3, then the tip rule on 8/6, 12/10, 16/14 and 20/18. */
  function FingerState(lm: seq<Landmark>): (fs: seq<bool>)
    requires Indexable(lm)
    ensures fs == [lm[4].x < lm[3].x, lm[8].y < lm[6].y, lm[12].y < lm[10].y,
                   lm[16].y < lm[14].y, lm[20].y < lm[18].y]
  {
    seq(|TipIds|, f requires 0 <= f < |TipIds| => Raised(lm, f))
  }

  /** Number of `true` flags in `bs`. */
  function CountTrue(bs: seq<bool>): nat
  {
    if |bs| == 0 then 0
    else CountTrue(bs[..|bs| - 1]) + (if bs[|bs| - 1] then 1 else 0)
  }

  function Ind(b: bool): nat
  {
    if b then 1 else 0
  }

  /** The raised-finger count the classifier reports: 0 when no hand was seen. */
  function Count(lm: seq<Landmark>): (n: nat)
    requires |lm| == 0 || Indexable(lm)
    ensures n <= |TipIds|
    ensures |lm| == 0 ==> n == 0
  {
    if |lm| == 0 then 0
    else
      CountTrueBound(FingerState(lm));
      CountTrue(FingerState(lm))
  }

  /** At most one per flag is counted. */
  lemma {:induction false} CountTrueBound(bs: seq<bool>)
    ensures CountTrue(bs) <= |bs|
  {
    if |bs| > 0 {
      CountTrueBound(bs[..|bs| - 1]);
    }
  }

  /** The count is zero exactly when no flag is set. */
  lemma {:induction false} CountTrueZero(bs: seq<bool>)
    ensures CountTrue(bs) == 0 <==> forall i :: 0 <= i < |bs| ==> !bs[i]
  {
    if |bs| > 0 {
      var init := bs[..|bs| - 1];
      CountTrueZero(init);
      assert forall i :: 0 <= i < |init| ==> init[i] == bs[i];
    }
  }

  /** The count is full exactly when every flag is set. */
  lemma {:induction false} CountTrueFull(bs: seq<bool>)
    ensures CountTrue(bs) == |bs| <==> forall i :: 0 <= i < |bs| ==> bs[i]
  {
    if |bs| > 0 {
      var init := bs[..|bs| - 1];
      CountTrueFull(init);
      CountTrueBound(init);
      assert forall i :: 0 <= i < |init| ==> init[i] == bs[i];
    }
  }

  /** Counting a prefix one flag longer adds that flag. */
  lemma CountTrueSnoc(bs: seq<bool>, i: nat)
    requires i < |bs|
    ensures CountTrue(bs[..i + 1]) == CountTrue(bs[..i]) + Ind(bs[i])
  {
    assert bs[..i + 1][..i] == bs[..i];
  }

  /** For a detected hand the count is the number of true predicates among the
      thumb rule on landmarks 4/3 and the tip rule on 8/6, 12/10, 16/14, 20/18. */
  lemma CountIsSumOfRules(lm: seq<Landmark>)
    requires Indexable(lm)
    ensures Count(lm) == Ind(lm[4].x < lm[3].x) + Ind(lm[8].y < lm[6].y)
                         + Ind(lm[12].y < lm[10].y) + Ind(lm[16].y < lm[14].y)
                         + Ind(lm[20].y < lm[18].y)
  {
    var fs := FingerState(lm);
    assert fs[..5] == fs;
    CountTrueSnoc(fs, 4);
    CountTrueSnoc(fs, 3);
    CountTrueSnoc(fs, 2);
    CountTrueSnoc(fs, 1);
    CountTrueSnoc(fs, 0);
  }

  /** A hand counts zero exactly when every finger is down (a closed fist), and
      five exactly when every finger is up. */
  lemma CountExtremes(lm: seq<Landmark>)
    requires Indexable(lm)
    ensures Count(lm) == 0 <==> forall f :: 0 <= f < |TipIds| ==> !Raised(lm, f)
    ensures Count(lm) == |TipIds| <==> forall f :: 0 <= f < |TipIds| ==> Raised(lm, f)
  {
    var fs := FingerState(lm);
    assert forall f :: 0 <= f < |TipIds| ==> (fs[f] <==> Raised(lm, f));
    CountTrueZero(fs);
    CountTrueFull(fs);
  }

  /** "No hand" and "closed fist" produce the same count, so nothing downstream
      can tell them apart. */
  lemma NoHandLooksLikeFist(lm: seq<Landmark>)
    requires WellFormedHand(lm)
    requires forall f :: 0 <= f < |TipIds| ==> !Raised(lm, f)
    ensures Count(lm) == Count([])
    ensures Count([]) == 0
  {
    CountExtremes(lm);
  }

  /**
   The classifier as main_serial.py writes it: the thumb flag first, then one flag
   per entry of the tip table beyond the thumb, then the number of set flags.
   An empty landmark list yields 0.
   */
  method CountFinger(lm: seq<Landmark>) returns (fingers: seq<bool>, n: nat)
    requires |lm| == 0 || Indexable(lm)
    ensures |lm| == 0 ==> fingers == [] && n == 0
    ensures |lm| > 0 ==> fingers == FingerState(lm)
    ensures n == Count(lm)
    ensures n <= 5
  {
    if |lm| == 0 {
      return [], 0;
    }
    fingers := [lm[4].x < lm[3].x];
    var k := 0;
    while k < |TipIds|
      invariant 0 <= k <= |TipIds|
      invariant fingers == FingerState(lm)[..if k == 0 then 1 else k]
    {
      var key := TipIds[k];
      if key > 4 {
        fingers := fingers + [lm[key].y < lm[key - 2].y];
      }
      k := k + 1;
    }
    assert fingers == FingerState(lm);
    n := 0;
    var i := 0;
    while i < |fingers|
      invariant 0 <= i <= |fingers|
      invariant n == CountTrue(fingers[..i])
    {
      CountTrueSnoc(fingers, i);
      if fingers[i] {
        n := n + 1;
      }
      i := i + 1;
    }
    assert fingers[..i] == fingers;
  }
}
