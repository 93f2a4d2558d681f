// The per-frame decision of the repetition counter: from the exercise,
// the stage carried over from the previous frame and the current joint
// angle, it derives the new stage, whether a repetition was completed,
// and the posture feedback for the frame.

module Posture {
  import opened Exercises

  /** The phase of a repetition; `Unset` before the first frame that
      decides one. */
  datatype Stage = Unset | Up | Down

  /** What one frame decides: the new stage, the repetition increment
      (0 or 1), whether the posture is acceptable and the message shown
      when it is not. */
  datatype Decision = Decision(stage: Stage, increment: nat, correctPosture: bool, feedback: string)

  const NOT_DEEP_ENOUGH: string := "Gerakan tidak cukup dalam."
  const TOO_STRAIGHT: string := "Pastikan tidak terlalu lurus saat di posisi atas."

  predicate BelowMin(e: ExerciseKind, angle: real) {
    angle < MinRepAngle(e) as real
  }

  predicate AboveMax(e: ExerciseKind, angle: real) {
    angle > MaxRepAngle(e) as real
  }

  /** The two thresholds never both apply to one angle. */
  lemma ThresholdsExclusive(e: ExerciseKind, angle: real)
    ensures !(BelowMin(e, angle) && AboveMax(e, angle))
  {
  }

  /** The decision of one frame. An angle above the upper threshold first
      moves the stage to `Up`; an angle below the lower threshold while
      the stage is `Up` then completes a repetition and moves it to
      `Down`; otherwise the stage is kept and only the posture is judged. */
  function CountRepsAndCorrectPosture(e: ExerciseKind, stage: Stage, angle: real): (d: Decision)
    // A repetition is reported exactly at the bottom of a movement that
    // started from the top, and it is reported with good posture.
    ensures d.increment <= 1
    ensures d.increment == 1 <==> BelowMin(e, angle) && stage == Up
    ensures d.increment == 1 ==> d == Decision(Down, 1, true, "")
    // Above the upper threshold: always the top of the movement, flagged.
    ensures AboveMax(e, angle) ==> d == Decision(Up, 0, false, TOO_STRAIGHT)
    // Within the range: the stage is kept, the posture is fine.
    ensures !BelowMin(e, angle) && !AboveMax(e, angle) ==> d == Decision(stage, 0, true, "")
    // Below the range without having been up: the stage is kept, flagged.
    ensures BelowMin(e, angle) && stage != Up ==> d == Decision(stage, 0, false, NOT_DEEP_ENOUGH)
    // The stage becomes `Up` only from a frame above the upper threshold,
    // or stays `Up` while the angle does not drop below the lower one.
    ensures d.stage == Up <==> AboveMax(e, angle) || (stage == Up && !BelowMin(e, angle))
  {
    ThresholdsExclusive(e, angle);
    var raised := if AboveMax(e, angle) then Up else stage;
    if BelowMin(e, angle) && raised == Up then
      Decision(Down, 1, true, "")
    else if BelowMin(e, angle) then
      Decision(raised, 0, false, NOT_DEEP_ENOUGH)
    else if AboveMax(e, angle) then
      Decision(raised, 0, false, TOO_STRAIGHT)
    else
      Decision(raised, 0, true, "")
  }

  /** The decisions for a sequence of angles, one per frame, each frame
      starting from the stage the previous one left. */
  function Decisions(e: ExerciseKind, stage: Stage, angles: seq<real>): (ds: seq<Decision>)
    ensures |ds| == |angles|
    ensures forall k :: 0 <= k < |ds| ==> ds[k].increment <= 1
    ensures forall k :: 0 <= k < |ds| ==>
      ds[k] == CountRepsAndCorrectPosture(e, if k == 0 then stage else ds[k - 1].stage, angles[k])
    decreases |angles|
  {
    if angles == [] then []
    else
      var d := CountRepsAndCorrectPosture(e, stage, angles[0]);
      [d] + Decisions(e, d.stage, angles[1..])
  }

  /** Starting from a stage other than `Up`, a repetition can only be
      reported after some frame above the upper threshold. */
  lemma {:induction false} RepNeedsRaise(e: ExerciseKind, stage: Stage, angles: seq<real>, j: nat)
    requires stage != Up
    requires j < |angles|
    requires Decisions(e, stage, angles)[j].increment == 1
    ensures exists k :: 0 <= k < j && AboveMax(e, angles[k])
  {
    var d := CountRepsAndCorrectPosture(e, stage, angles[0]);
    assert Decisions(e, stage, angles) == [d] + Decisions(e, d.stage, angles[1..]);
    if AboveMax(e, angles[0]) {
      assert j != 0;
    } else {
      assert d.stage == stage;
      assert j != 0;
      RepNeedsRaise(e, d.stage, angles[1..], j - 1);
      var k :| 0 <= k < j - 1 && AboveMax(e, angles[1..][k]);
      assert AboveMax(e, angles[k + 1]);
    }
  }

  /** Between any two reported repetitions there is a frame above the
      upper threshold: a repetition leaves the stage `Down`, and only such
      a frame brings it back to `Up`. */
  lemma {:induction false} RepsSeparatedByRaise(e: ExerciseKind, stage: Stage, angles: seq<real>, i: nat, j: nat)
    requires i < j < |angles|
    requires Decisions(e, stage, angles)[i].increment == 1
    requires Decisions(e, stage, angles)[j].increment == 1
    ensures exists k :: i < k < j && AboveMax(e, angles[k])
    decreases i
  {
    var d := CountRepsAndCorrectPosture(e, stage, angles[0]);
    var rest := Decisions(e, d.stage, angles[1..]);
    assert Decisions(e, stage, angles) == [d] + rest;
    if i == 0 {
      assert d.stage == Down;
      RepNeedsRaise(e, Down, angles[1..], j - 1);
      var k :| 0 <= k < j - 1 && AboveMax(e, angles[1..][k]);
      assert AboveMax(e, angles[k + 1]);
    } else {
      RepsSeparatedByRaise(e, d.stage, angles[1..], i - 1, j - 1);
      var k :| i - 1 < k < j - 1 && AboveMax(e, angles[1..][k]);
      assert AboveMax(e, angles[k + 1]);
    }
  }

  /** Two consecutive frames never both report a repetition. */
  lemma NoConsecutiveReps(e: ExerciseKind, stage: Stage, angles: seq<real>, i: nat)
    requires i + 1 < |angles|
    ensures !(Decisions(e, stage, angles)[i].increment == 1 && Decisions(e, stage, angles)[i + 1].increment == 1)
  {
    if Decisions(e, stage, angles)[i].increment == 1 && Decisions(e, stage, angles)[i + 1].increment == 1 {
      RepsSeparatedByRaise(e, stage, angles, i, i + 1);
    }
  }

  /** The sample movement 170, 95, 60, 170 degrees, started from `Unset`,
      reports one repetition, at the 60-degree frame, for a push-up. */
  lemma PushupSample()
    ensures var ds := Decisions(Pushup, Unset, [170.0, 95.0, 60.0, 170.0]);
      ds[0].increment == 0 && ds[1].increment == 0 && ds[2].increment == 1 && ds[3].increment == 0
  {
  }

  /** The same movement reports one squat, at the 60-degree frame. */
  lemma SquatSample()
    ensures var ds := Decisions(Squat, Unset, [170.0, 95.0, 60.0, 170.0]);
      ds[0].increment == 0 && ds[1].increment == 0 && ds[2].increment == 1 && ds[3].increment == 0
  {
  }

  /** The same movement reports one sit-up, at the 60-degree frame. */
  lemma SitupSample()
    ensures var ds := Decisions(Situp, Unset, [170.0, 95.0, 60.0, 170.0]);
      ds[0].increment == 0 && ds[1].increment == 0 && ds[2].increment == 1 && ds[3].increment == 0
  {
  }

  /** The same movement reports no repetition for a bicep curl: 60
      degrees lies inside its range [50, 70], so the bottom is never
      reached. */
  lemma BicepCurlSample()
    ensures var ds := Decisions(BicepCurl, Unset, [170.0, 95.0, 60.0, 170.0]);
      forall k :: 0 <= k < |ds| ==> ds[k].increment == 0
  {
  }
}
