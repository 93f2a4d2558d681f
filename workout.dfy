// The workout session: the state carried from frame to frame (stage,
// repetition count, time of the last accepted repetition, whether the
// current milestone prompt was answered), one frame's update of it, the
// session as a class, and the frame loop that drives it.

module Workout {
  import opened Wrappers
  import opened Exercises
  import opened Posture

  /** Minimal time between two accepted repetitions, in seconds. */
  const MIN_TIME_BETWEEN_REPS: real := 1.5
  /** The milestone interval. The assignment meant to grow it writes a
      dictionary entry under the key 12 instead of the variable, so it
      stays 12 for the whole session. */
  const TARGET_REPS_INTERVAL: nat := 12
  const TOO_FAST: string := "Gerakan terlalu cepat, perlambat!"

  /** The user's answer to the milestone prompt, within its wait. */
  datatype Answer = Yes | No | Timeout

  /** What pose detection found in a frame: nothing, or the joint angle
      of the exercise's landmark triple. */
  datatype Pose = NoPose | Pose(angle: real)

  /** One camera frame as the session sees it: the pose, the clock
      reading taken when a repetition is reported, the answer the prompt
      would get if it is shown, and whether the quit key was pressed. */
  datatype Frame = Frame(pose: Pose, now: real, answer: Answer, quit: bool)

  /** What the frame shows: the count, the posture verdict and message,
      and whether the milestone prompt was put to the user. */
  datatype Overlay = Overlay(reps: nat, correctPosture: bool, feedback: string, prompted: bool)

  datatype Outcome = Running | Finished(totalReps: nat)

  /** The result of one frame: an overlay when a pose was found, and
      whether the session goes on. */
  datatype Report = Report(overlay: Option<Overlay>, outcome: Outcome)

  datatype State = State(stage: Stage, reps: nat, lastRepTime: real, inputGiven: bool)

  datatype StepResult = StepResult(state: State, report: Report)

  /** The state at session start: no stage, no repetitions, and the
      debounce clock started at the start time. */
  function Initial(start: real): State {
    State(Unset, 0, start, false)
  }

  /** The count is at a milestone whose prompt has not been answered. */
  predicate MilestoneDue(reps: nat, inputGiven: bool) {
    reps > 0 && reps % TARGET_REPS_INTERVAL == 0 && !inputGiven
  }

  predicate Prompted(r: Report) {
    r.overlay.Some? && r.overlay.value.prompted
  }

  /** The answered flag is only ever set at a milestone. */
  predicate Coherent(s: State) {
    s.inputGiven ==> s.reps > 0 && s.reps % TARGET_REPS_INTERVAL == 0
  }

  /** Cumulative pacing: the debounce clock is at least one minimal
      interval past `start` for every repetition counted so far. */
  predicate Paced(start: real, s: State) {
    s.lastRepTime >= start + MIN_TIME_BETWEEN_REPS * s.reps as real
  }

  /** One frame of the session. */
  function Next(e: ExerciseKind, s: State, f: Frame): (r: StepResult)
    // A frame without a pose changes nothing; only the quit key acts.
    ensures f.pose.NoPose? ==> r == StepResult(s, Report(None, if f.quit then Finished(s.reps) else Running))
    // With a pose, the stage is the decision's, even for a rejected
    // repetition, and the frame reports the count.
    ensures f.pose.Pose? ==> var d := CountRepsAndCorrectPosture(e, s.stage, f.pose.angle);
      && r.state.stage == d.stage
      && r.report.overlay.Some?
      && r.report.overlay.value.reps == r.state.reps
      // Debounce: a reported repetition is accepted exactly when the
      // minimal time has passed since the last accepted one ...
      && (r.state.reps == s.reps + 1 <==> d.increment == 1 && f.now - s.lastRepTime >= MIN_TIME_BETWEEN_REPS)
      && (r.state.reps == s.reps + 1 ==> r.state.lastRepTime == f.now)
      // ... and rejected, with a warning, otherwise.
      && (d.increment == 1 && f.now - s.lastRepTime < MIN_TIME_BETWEEN_REPS ==>
            r.report.overlay.value.correctPosture == false && r.report.overlay.value.feedback == TOO_FAST)
      && (r.state.reps == s.reps + 1 ==>
            r.report.overlay.value.correctPosture && r.report.overlay.value.feedback == "")
      && (d.increment == 0 ==>
            r.report.overlay.value.correctPosture == d.correctPosture && r.report.overlay.value.feedback == d.feedback)
      // The prompt is shown exactly at an unanswered milestone.
      && (Prompted(r.report) <==> MilestoneDue(r.state.reps, s.inputGiven))
    // The count never falls and grows by at most one per frame; the
    // debounce clock moves only with an accepted repetition.
    ensures r.state.reps == s.reps || r.state.reps == s.reps + 1
    ensures r.state.reps == s.reps ==> r.state.lastRepTime == s.lastRepTime
    ensures r.state.lastRepTime >= s.lastRepTime
    // The answered flag: set by Yes, kept by a timeout, cleared by the
    // repetition that starts the next block of the interval.
    ensures Prompted(r.report) ==> r.state.inputGiven == (f.answer == Yes)
    ensures !Prompted(r.report) && r.state.reps == s.reps ==> r.state.inputGiven == s.inputGiven
    ensures !Prompted(r.report) && r.state.reps == s.reps + 1 ==>
      r.state.inputGiven == (s.inputGiven && r.state.reps % TARGET_REPS_INTERVAL != 1)
    // The session ends on No at the prompt, or on the quit key, and
    // reports the count.
    ensures r.report.outcome == (if (Prompted(r.report) && f.answer == No) || f.quit then Finished(r.state.reps) else Running)
    // Invariants of the session.
    ensures Coherent(s) ==> Coherent(r.state)
    ensures Coherent(s) && r.state.reps == s.reps + 1 && r.state.reps % TARGET_REPS_INTERVAL == 0 ==> Prompted(r.report)
  {
    match f.pose
    case NoPose =>
      StepResult(s, Report(None, if f.quit then Finished(s.reps) else Running))
    case Pose(angle) =>
      var d := CountRepsAndCorrectPosture(e, s.stage, angle);
      var tooFast := d.increment == 1 && f.now - s.lastRepTime < MIN_TIME_BETWEEN_REPS;
      var accepted := d.increment == 1 && !tooFast;
      var reps := if accepted then s.reps + 1 else s.reps;
      var lastRepTime := if accepted then f.now else s.lastRepTime;
      var inputGiven := if accepted && reps % 12 == 1 then false else s.inputGiven;
      var correctPosture := if tooFast then false else d.correctPosture;
      var feedback := if tooFast then TOO_FAST else d.feedback;
      var prompted := MilestoneDue(reps, inputGiven);
      var inputGiven' := if prompted && f.answer == Yes then true else inputGiven;
      var finished := (prompted && f.answer == No) || f.quit;
      StepResult(State(d.stage, reps, lastRepTime, inputGiven'),
                 Report(Some(Overlay(reps, correctPosture, feedback, prompted)),
                        if finished then Finished(reps) else Running))
  }

  /** A timeout leaves the milestone unanswered: the next frame with a
      pose that does not add a repetition shows the prompt again. */
  lemma TimeoutAsksAgain(e: ExerciseKind, s: State, f1: Frame, f2: Frame)
    requires Prompted(Next(e, s, f1).report) && f1.answer == Timeout
    requires f2.pose.Pose?
    requires Next(e, Next(e, s, f1).state, f2).state.reps == Next(e, s, f1).state.reps
    ensures Prompted(Next(e, Next(e, s, f1).state, f2).report)
  {
  }

  /** The frames of a session, from state `s`, until the frames run out
      or a frame finishes the session: the state after and the report of
      each frame processed, and the final state. */
  datatype RunResult = RunResult(final: State, states: seq<State>, reports: seq<Report>)

  /** The state in which frame `k` of a run starts. */
  function Prior(s: State, states: seq<State>, k: nat): State
    requires k <= |states|
  {
    if k == 0 then s else states[k - 1]
  }

  /** `states` and `reports` are what the first |states| frames give,
      each frame one step of `Next` from the state the previous one left.
      `Run` ensures this of its result, so the lemmas stated over `Steps`
      hold of every session. */
  ghost predicate Steps(e: ExerciseKind, s: State, frames: seq<Frame>, states: seq<State>, reports: seq<Report>) {
    && |states| == |reports| <= |frames|
    && forall k {:trigger reports[k]} :: 0 <= k < |states| ==>
         Next(e, Prior(s, states, k), frames[k]) == StepResult(states[k], reports[k])
  }

  lemma StepsCons(e: ExerciseKind, s: State, frames: seq<Frame>, states: seq<State>, reports: seq<Report>)
    requires frames != []
    requires Steps(e, Next(e, s, frames[0]).state, frames[1..], states, reports)
    ensures Steps(e, s, frames, [Next(e, s, frames[0]).state] + states, [Next(e, s, frames[0]).report] + reports)
  {
    var step := Next(e, s, frames[0]);
    var states', reports' := [step.state] + states, [step.report] + reports;
    forall k | 0 <= k < |states'|
      ensures Next(e, Prior(s, states', k), frames[k]) == StepResult(states'[k], reports'[k])
    {
      if k > 0 {
        assert Prior(s, states', k) == Prior(step.state, states, k - 1);
        assert frames[k] == frames[1..][k - 1];
      }
    }
  }

  function Run(e: ExerciseKind, s: State, frames: seq<Frame>): (r: RunResult)
    // Each processed frame is one step of `Next` from the state the
    // previous frame left.
    ensures Steps(e, s, frames, r.states, r.reports)
    ensures r.final == Prior(s, r.states, |r.states|)
    // The session goes on until a frame finishes it; that frame is the
    // last one processed, and it reports the final count.
    ensures forall k :: 0 <= k < |r.reports| - 1 ==> r.reports[k].outcome == Running
    ensures |r.reports| < |frames| ==> r.reports != [] && r.reports[|r.reports| - 1].outcome.Finished?
    ensures r.reports != [] && r.reports[|r.reports| - 1].outcome.Finished? ==>
      r.reports[|r.reports| - 1].outcome.totalReps == r.final.reps
    // The count never falls, and grows by at most one per frame; the
    // debounce clock never goes back.
    ensures s.reps <= r.final.reps <= s.reps + |r.reports|
    ensures forall i :: 0 <= i < |r.reports| && r.reports[i].overlay.Some? ==>
      s.reps <= r.reports[i].overlay.value.reps <= r.final.reps
    ensures forall k :: 0 <= k < |r.states| ==> s.lastRepTime <= r.states[k].lastRepTime
    decreases |frames|
  {
    if frames == [] then RunResult(s, [], [])
    else
      var step := Next(e, s, frames[0]);
      if step.report.outcome.Finished? then RunResult(step.state, [step.state], [step.report])
      else
        var rest := Run(e, step.state, frames[1..]);
        StepsCons(e, s, frames, rest.states, rest.reports);
        RunResult(rest.final, [step.state] + rest.states, [step.report] + rest.reports)
  }

  /** Frame `k` of a run added a repetition. */
  predicate Accepted(s: State, states: seq<State>, k: nat)
    requires k < |states|
  {
    states[k].reps == Prior(s, states, k).reps + 1
  }

  /** A frame with a pose whose angle is above the upper threshold. */
  predicate Raise(e: ExerciseKind, f: Frame) {
    f.pose.Pose? && AboveMax(e, f.pose.angle)
  }

  /** The final state of a run in terms of its first frame. */
  lemma RunFinal(e: ExerciseKind, s: State, frames: seq<Frame>)
    requires frames != []
    ensures Run(e, s, frames).final ==
      if Next(e, s, frames[0]).report.outcome.Finished? then Next(e, s, frames[0]).state
      else Run(e, Next(e, s, frames[0]).state, frames[1..]).final
  {
  }

  /** What is left of a run after its frame `i`: nothing when that frame
      finishes the session, otherwise the run of the remaining frames. */
  lemma RunAfterStep(e: ExerciseKind, s: State, frames: seq<Frame>, i: nat, target: State, after: State, report: Report)
    requires i < |frames|
    requires Run(e, s, frames[i..]).final == target
    requires Next(e, s, frames[i]) == StepResult(after, report)
    ensures report.outcome.Finished? ==> after == target
    ensures !report.outcome.Finished? ==> Run(e, after, frames[i + 1..]).final == target
  {
    assert frames[i..][0] == frames[i] && frames[i..][1..] == frames[i + 1..];
    RunFinal(e, s, frames[i..]);
  }

  /** The count at the end of a session. */
  function Total(e: ExerciseKind, start: real, frames: seq<Frame>): nat {
    Run(e, Initial(start), frames).final.reps
  }

  /** The pacing invariant holds for the whole session, and the debounce
      clock never passes the latest clock reading. */
  lemma {:induction false} RunKeepsPace(e: ExerciseKind, start: real, s: State, frames: seq<Frame>, t: real)
    requires Paced(start, s) && s.lastRepTime <= t
    requires forall i :: 0 <= i < |frames| ==> frames[i].now <= t
    ensures Paced(start, Run(e, s, frames).final) && Run(e, s, frames).final.lastRepTime <= t
    decreases |frames|
  {
    if frames != [] {
      var step := Next(e, s, frames[0]);
      assert Paced(start, step.state) && step.state.lastRepTime <= t;
      if !step.report.outcome.Finished? {
        RunKeepsPace(e, start, step.state, frames[1..], t);
      }
    }
  }

  /** A session whose clock readings are at most `t` seconds counts at
      most one repetition per minimal interval since its start. In
      particular a repetition within that interval of the start is never
      counted. */
  lemma RepsWithinDuration(e: ExerciseKind, start: real, frames: seq<Frame>, t: real)
    requires start <= t
    requires forall i :: 0 <= i < |frames| ==> frames[i].now <= t
    ensures MIN_TIME_BETWEEN_REPS * Total(e, start, frames) as real <= t - start
  {
    RunKeepsPace(e, start, Initial(start), frames, t);
  }

  /** Once the prompt of milestone `m` has been answered Yes, it is not
      shown again: every later prompt comes at a higher count. */
  lemma AnsweredMilestoneNotAskedAgain(e: ExerciseKind, s: State, frames: seq<Frame>,
                                       states: seq<State>, reports: seq<Report>, m: nat)
    requires Steps(e, s, frames, states, reports)
    requires m <= s.reps
    requires s.reps == m ==> s.inputGiven
    ensures forall i :: 0 <= i < |reports| && Prompted(reports[i]) ==> reports[i].overlay.value.reps > m
  {
    forall i | 0 <= i < |reports| && Prompted(reports[i])
      ensures reports[i].overlay.value.reps > m
    {
      AnsweredStaysAnswered(e, s, frames, states, reports, m, i);
    }
  }

  /** Along the steps of a run, an answered milestone `m` stays answered
      until the count passes it, so no prompt comes at count `m`. */
  lemma {:induction false} AnsweredStaysAnswered(e: ExerciseKind, s: State, frames: seq<Frame>,
                                                 states: seq<State>, reports: seq<Report>, m: nat, k: nat)
    requires Steps(e, s, frames, states, reports)
    requires m <= s.reps
    requires s.reps == m ==> s.inputGiven
    requires k < |states|
    ensures m <= states[k].reps
    ensures states[k].reps == m ==> states[k].inputGiven
    ensures Prompted(reports[k]) ==> reports[k].overlay.value.reps > m
  {
    if k > 0 {
      AnsweredStaysAnswered(e, s, frames, states, reports, m, k - 1);
    }
    var p := Prior(s, states, k);
    assert Next(e, p, frames[k]) == StepResult(states[k], reports[k]);
  }

  /** Along the steps of a run, the answered flag is only ever set at a
      milestone. */
  lemma {:induction false} CoherentAlong(e: ExerciseKind, s: State, frames: seq<Frame>,
                                         states: seq<State>, reports: seq<Report>, k: nat)
    requires Steps(e, s, frames, states, reports)
    requires Coherent(s)
    requires k < |states|
    ensures Coherent(states[k])
  {
    if k > 0 {
      CoherentAlong(e, s, frames, states, reports, k - 1);
    }
    assert Next(e, Prior(s, states, k), frames[k]) == StepResult(states[k], reports[k]);
  }

  /** Along the steps of a session, every accepted repetition that reaches
      a milestone shows the prompt. */
  lemma MilestoneReachedPrompted(e: ExerciseKind, s: State, frames: seq<Frame>,
                                 states: seq<State>, reports: seq<Report>, k: nat)
    requires Steps(e, s, frames, states, reports)
    requires Coherent(s)
    requires k < |states| && Accepted(s, states, k)
    requires states[k].reps % TARGET_REPS_INTERVAL == 0
    ensures Prompted(reports[k])
  {
    if k > 0 {
      CoherentAlong(e, s, frames, states, reports, k - 1);
    }
    assert Next(e, Prior(s, states, k), frames[k]) == StepResult(states[k], reports[k]);
  }

  /** The debounce clock never goes back along the steps of a run. */
  lemma {:induction false} ClockMonotone(e: ExerciseKind, s: State, frames: seq<Frame>,
                                         states: seq<State>, reports: seq<Report>, a: nat, b: nat)
    requires Steps(e, s, frames, states, reports)
    requires a <= b < |states|
    ensures states[a].lastRepTime <= states[b].lastRepTime
    decreases b - a
  {
    if a < b {
      ClockMonotone(e, s, frames, states, reports, a, b - 1);
      assert Next(e, Prior(s, states, b), frames[b]) == StepResult(states[b], reports[b]);
    }
  }

  /** Any two accepted repetitions of a session lie at least the minimal
      time apart. */
  lemma RepsSpacedInTime(e: ExerciseKind, s: State, frames: seq<Frame>,
                         states: seq<State>, reports: seq<Report>, i: nat, j: nat)
    requires Steps(e, s, frames, states, reports)
    requires i < j < |states| && Accepted(s, states, i) && Accepted(s, states, j)
    ensures frames[j].now - frames[i].now >= MIN_TIME_BETWEEN_REPS
  {
    assert Next(e, Prior(s, states, i), frames[i]) == StepResult(states[i], reports[i]);
    assert Next(e, Prior(s, states, j), frames[j]) == StepResult(states[j], reports[j]);
    ClockMonotone(e, s, frames, states, reports, i, j - 1);
  }

  /** Along the steps of a run, a stage other than `Up` stays so until a
      frame with a pose above the upper threshold. */
  lemma {:induction false} StageStaysOffUp(e: ExerciseKind, s: State, frames: seq<Frame>,
                                           states: seq<State>, reports: seq<Report>, a: nat, b: nat)
    requires Steps(e, s, frames, states, reports)
    requires a <= b < |states|
    requires states[a].stage != Up
    requires forall k :: a < k <= b ==> !Raise(e, frames[k])
    ensures states[b].stage != Up
    decreases b - a
  {
    if a < b {
      StageStaysOffUp(e, s, frames, states, reports, a, b - 1);
      assert Next(e, Prior(s, states, b), frames[b]) == StepResult(states[b], reports[b]);
    }
  }

  /** Between any two accepted repetitions of a session lies a frame with
      a pose above the upper threshold: the stage carried from frame to
      frame is `Down` after a repetition and turns `Up` only on such a
      frame. */
  lemma RepsSeparatedInSession(e: ExerciseKind, s: State, frames: seq<Frame>,
                               states: seq<State>, reports: seq<Report>, i: nat, j: nat)
    requires Steps(e, s, frames, states, reports)
    requires i < j < |states| && Accepted(s, states, i) && Accepted(s, states, j)
    ensures exists k :: i < k < j && Raise(e, frames[k])
  {
    assert Next(e, Prior(s, states, i), frames[i]) == StepResult(states[i], reports[i]);
    assert Next(e, Prior(s, states, j), frames[j]) == StepResult(states[j], reports[j]);
    if !exists k :: i < k < j && Raise(e, frames[k]) {
      StageStaysOffUp(e, s, frames, states, reports, i, j - 1);
      assert false;
    }
  }

  /** The session, with fields the frame loop updates in place. */
  class Session {
    const exercise: ExerciseKind
    var stage: Stage
    var reps: nat
    var lastRepTime: real
    var inputGiven: bool

    function Current(): State
      reads this
    {
      State(stage, reps, lastRepTime, inputGiven)
    }

    /** A session that starts at clock reading `start`. */
    constructor (exercise: ExerciseKind, start: real)
      ensures this.exercise == exercise
      ensures Current() == Initial(start)
    {
      this.exercise := exercise;
      stage := Unset;
      reps := 0;
      lastRepTime := start;
      inputGiven := false;
    }

    /** Processes one frame: decision, debounce, milestone prompt and the
        quit key. */
    method Step(f: Frame) returns (report: Report)
      modifies this
      ensures Next(exercise, old(Current()), f) == StepResult(Current(), report)
    {
      if f.pose.NoPose? {
        report := Report(None, if f.quit then Finished(reps) else Running);
        return;
      }
      var d := CountRepsAndCorrectPosture(exercise, stage, f.pose.angle);
      stage := d.stage;
      var correctPosture, feedback := d.correctPosture, d.feedback;
      if d.increment == 1 {
        if f.now - lastRepTime < MIN_TIME_BETWEEN_REPS {
          feedback := TOO_FAST;
          correctPosture := false;
        } else {
          lastRepTime := f.now;
          reps := reps + d.increment;
          if reps % 12 == 1 {
            inputGiven := false;
          }
        }
      }
      var overlay := Overlay(reps, correctPosture, feedback, false);
      if MilestoneDue(reps, inputGiven) {
        overlay := overlay.(prompted := true);
        if f.answer == Yes {
          inputGiven := true;
        } else if f.answer == No {
          report := Report(Some(overlay), Finished(reps));
          return;
        }
      }
      report := Report(Some(overlay), if f.quit then Finished(reps) else Running);
    }
  }

  /** The frame loop: runs a session over the frames until one of them
      finishes it or the frames run out, and returns the final count. */
  method ProcessWithCamera(exercise: ExerciseKind, start: real, frames: seq<Frame>) returns (total: nat)
    ensures total == Total(exercise, start, frames)
  {
    var session := new Session(exercise, start);
    ghost var target := Run(exercise, Initial(start), frames).final;
    var i := 0;
    while i < |frames|
      invariant 0 <= i <= |frames|
      invariant session.exercise == exercise
      invariant Run(exercise, session.Current(), frames[i..]).final == target
      decreases |frames| - i
    {
      ghost var before := session.Current();
      var report := session.Step(frames[i]);
      RunAfterStep(exercise, before, frames, i, target, session.Current(), report);
      if report.outcome.Finished? {
        return session.reps;
      }
      i := i + 1;
    }
    total := session.reps;
  }
}
