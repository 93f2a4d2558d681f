# Flexym repetition counter — a Dafny model

Flexym counts exercise repetitions from a camera feed. For each frame it
takes one joint angle (elbow, knee or hip, depending on the exercise) and
runs a small state machine:

- the **decision** compares the angle with the exercise's two thresholds
  and the stage carried over from the previous frame (`Unset`, `Up`,
  `Down`); it yields the new stage, a repetition increment of 0 or 1, a
  posture verdict and a feedback message;
- the **debounce gate** rejects a reported repetition that comes less
  than 1.5 s after the last accepted one (the clock starts at session
  start); a rejected repetition still moves the stage to `Down`;
- the **milestone prompt** asks, whenever the count is a positive
  multiple of 12 and the prompt of that milestone has not been answered,
  whether to continue: Yes marks it answered, No ends the session, a
  timeout leaves it unanswered, so it is asked again on the next frame
  with a pose that does not move the count;
- the **frame loop** repeats this until a frame ends the session (No, or
  the quit key) or the frames run out, and reports the final count.

Modules:

- `Exercises` (`exercises.dfy`): the four exercises, their names and
  their angle thresholds; `Wrappers` there holds an `Option` type.
- `Posture` (`posture.dfy`): the per-frame decision as a function and its
  behaviour over a sequence of angles.
- `Workout` (`workout.dfy`): the session state, one frame's update as a
  function `Next`, the whole session as a function `Run`, the class
  `Session` whose `Step` method updates its fields in place as the
  source's loop body does and is proved equal to `Next`, and the frame
  loop `ProcessWithCamera` proved to return the count `Run` predicts.

Joint angles and clock readings are `real` inputs supplied by the caller.
The milestone prompt's answer and the quit key are fields of each frame.

Where the behaviour described for the system and the code differ, the
model follows the code:

- The milestone interval does not grow. Flexym.py:157 assigns to
  `globals()[target_reps_interval]`, which creates a dictionary entry
  under the integer key 12. The variable `target_reps_interval` keeps the
  value 12, and Flexym.py:124 hard-codes 12 as well. So the prompt comes
  at 12, 24, 36, … (`TARGET_REPS_INTERVAL`).
- Only the answer Yes marks a milestone answered. A timeout leaves it
  unanswered, so the next frame with a pose that does not move the count
  shows the prompt again (`TimeoutAsksAgain`), also when the timed-out
  prompt came on the frame whose repetition reached the milestone.
- The sample movement 170°, 95°, 60°, 170° yields one repetition, at the
  60° frame, for push-ups, squats and sit-ups (`PushupSample`,
  `SquatSample`, `SitupSample`). For the bicep curl it yields none
  (`BicepCurlSample`), because 60° lies inside that exercise's range
  [50°, 70°].
- An accepted repetition always carries good posture and no message. The
  decision returns early at Flexym.py:66, before the posture check runs.

## Model

| member | source | states |
|---|---|---|
| `Exercises.Parse` | Flexym.py:10-11 | a name is found exactly when it is one of the four table keys, and what is found carries that name |
| `Exercises.ParseName` | Flexym.py:10-11 | every exercise is found again under its own key |
| `Exercises.MinRepAngle` | Flexym.py:10 | the lower threshold is positive (90, 90, 90, 50) |
| `Exercises.MaxRepAngle` | Flexym.py:11 | the upper threshold (160, 160, 140, 70) lies strictly above the lower one and within [0, 180] |
| `Posture.ThresholdsExclusive` | Flexym.py:62-72 | no angle is both below the lower and above the upper threshold |
| `Posture.CountRepsAndCorrectPosture` | Flexym.py:61-76 | increment is 1 exactly when the angle is below the lower threshold and the incoming stage is `Up`, and then the result is stage `Down`, good posture, no message; above the upper threshold the result is always stage `Up`, increment 0, bad posture, the "too straight" message; within the range the stage is kept with good posture and no message; below the range without `Up` the stage is kept with bad posture and the "not deep enough" message; the new stage is `Up` exactly after a frame above the upper threshold, or when it was `Up` and the angle did not drop below the lower one |
| `Posture.Decisions` | Flexym.py:113 | one decision per frame, each increment at most 1, and decision k is the decision for angle k from the stage decision k - 1 returned (the incoming stage for the first) |
| `Posture.RepNeedsRaise` | Flexym.py:62-66 | from a stage other than `Up`, a repetition is reported only after some frame above the upper threshold |
| `Posture.RepsSeparatedByRaise` | Flexym.py:62-66 | between any two reported repetitions lies a frame above the upper threshold |
| `Posture.NoConsecutiveReps` | Flexym.py:62-66 | two consecutive frames never both report a repetition |
| `Posture.PushupSample` | Flexym.py:61-76 | 170°, 95°, 60°, 170° from `Unset` reports exactly one push-up, at the 60° frame |
| `Posture.SquatSample` | Flexym.py:61-76 | the same movement reports exactly one squat, at the 60° frame |
| `Posture.SitupSample` | Flexym.py:61-76 | the same movement reports exactly one sit-up, at the 60° frame |
| `Posture.BicepCurlSample` | Flexym.py:61-76 | the same movement reports no bicep curl |
| `Workout.Next` | Flexym.py:111-167 | a frame without a pose changes no state and only the quit key acts; with a pose the stage is the decision's even for a rejected repetition; the count grows by one exactly when a repetition is reported at least 1.5 s after the last accepted one, and then the debounce clock is set to now; otherwise count and clock are unchanged, and a too-early repetition gives bad posture and the "too fast" message; an accepted repetition shows good posture and no message; the debounce clock never goes back; the prompt is shown exactly when the count is a positive multiple of 12 and the milestone is unanswered; Yes marks it answered, No and Timeout leave it unanswered; the repetition reaching a count of 1 modulo 12 clears the flag; No at the prompt or the quit key ends the session with the current count; the flag is only ever set at a milestone, and whenever an accepted repetition reaches a milestone the prompt is shown |
| `Workout.TimeoutAsksAgain` | Flexym.py:115-162 | after a timeout, the next frame with a pose that leaves the count where the timed-out frame put it shows the prompt again, including when the timed-out frame's own repetition reached the milestone |
| `Workout.Run` | Flexym.py:100-167 | every processed frame is one step of `Next` from the state the previous frame left; every frame but the last processed one lets the session go on; the session stops before the frames run out only on a frame that finishes it, and a finishing frame reports the final count; the count never decreases, grows by at most one per processed frame, every displayed count lies between the start and final counts, and the debounce clock never falls below its start value |
| `Workout.RunKeepsPace` | Flexym.py:116-123 | the cumulative bound holds over a whole session: the debounce clock stands at least 1.5 s per counted repetition past the start, and never exceeds the latest clock reading |
| `Workout.ClockMonotone` | Flexym.py:116-123 | along a session the time of the last accepted repetition never goes back |
| `Workout.RepsSpacedInTime` | Flexym.py:116-123 | along the frame-by-frame steps of a session (as `Run` produces them), the clock readings of any two accepted repetitions are at least 1.5 s apart |
| `Workout.RepsSeparatedInSession` | Flexym.py:111-123 | along the frame-by-frame steps of a session, between any two accepted repetitions lies a frame with a pose whose angle is above the upper threshold |
| `Workout.RepsWithinDuration` | Flexym.py:96-123 | a session whose clock readings end by time t counts at most (t - start) / 1.5 repetitions, so none within 1.5 s of the start |
| `Workout.CoherentAlong` | Flexym.py:115-156 | along the frame-by-frame steps of a session that starts with the flag set only at a milestone (as `Initial` does), every state keeps the flag set only at a milestone |
| `Workout.MilestoneReachedPrompted` | Flexym.py:115-142 | along the frame-by-frame steps of a session from such a state, every accepted repetition that brings the count to a multiple of 12 shows the prompt on that frame |
| `Workout.AnsweredMilestoneNotAskedAgain` | Flexym.py:124-162 | along the frame-by-frame steps of a session that starts with milestone m answered Yes, every prompt comes at a count above m |
| `Workout.Session.constructor` | Flexym.py:94-97 | a new session has no stage, count 0, the debounce clock at the start time and no answered milestone |
| `Workout.Session.Step` | Flexym.py:111-167 | updating the fields in place yields exactly the state and report of `Next` |
| `Workout.ProcessWithCamera` | Flexym.py:92-181 | the frame loop returns the final count of the session as `Run` computes it |

## Left out

- `calculate_angle` (Flexym.py:16-26): floating-point `arctan2` trigonometry; the joint angle is an input `real`.
- Landmark extraction (Flexym.py:34-59) and pose detection (Flexym.py:107): calls into the pose-estimation library; a frame carries the angle or reports no pose.
- The crash on an exercise name outside the table (the angle stays unbound at Flexym.py:62): the model takes an `ExerciseKind`, and `Parse` returns `None` for such a name.
- Camera capture, colour conversion, read failure and release (Flexym.py:93-109, 164-165, 179-181): I/O; the frames are a sequence, and their end stands for a failed read.
- Drawing and text overlays, `display_exercise_guidelines` and the final print (Flexym.py:79-89, 128-146, 166, 169-173, 181): display only; the overlay's content is returned as a `Report`.
- The five-second `cv2.waitKey` polling loop for the prompt and the quit-key poll (Flexym.py:153-161, 176-177): each frame carries the prompt's answer (Yes, No or Timeout) and a quit flag.
- `time.time()`: clock readings are caller-supplied reals; the pacing results do not even need them to be increasing.
- Floating-point comparison details such as NaN angles: angles are exact reals.
