// The fixed table of exercises and their angle thresholds, and the
// small Option type the rest of the model uses.

module Wrappers {

  datatype Option<+T> = None | Some(value: T)
}

module Exercises {
  import opened Wrappers

  /** The four exercises the counter knows. Any other name has no
      thresholds and no landmark triple. */
  datatype ExerciseKind = Pushup | Squat | Situp | BicepCurl

  /** The key under which the exercise appears in the threshold tables. */
  function Name(e: ExerciseKind): string {
    match e
    case Pushup => "pushup"
    case Squat => "squat"
    case Situp => "situp"
    case BicepCurl => "bicepcurl"
  }

  /** Looks an exercise name up in the tables; `None` for a name that the
      tables do not hold (the counter cannot run such an exercise). */
  function Parse(name: string): (r: Option<ExerciseKind>)
    ensures r.Some? ==> Name(r.value) == name
    ensures r.None? <==> forall e: ExerciseKind :: Name(e) != name
  {
    if name == "pushup" then Some(Pushup)
    else if name == "squat" then Some(Squat)
    else if name == "situp" then Some(Situp)
    else if name == "bicepcurl" then Some(BicepCurl)
    else None
  }

  /** Every exercise is found again under its own name. */
  lemma ParseName(e: ExerciseKind)
    ensures Parse(Name(e)) == Some(e)
  {
  }

  /** Lower joint-angle threshold, in degrees: a smaller angle is the
      bottom of a repetition. */
  function MinRepAngle(e: ExerciseKind): (deg: nat)
    ensures 0 < deg
  {
    match e
    case Pushup => 90
    case Squat => 90
    case Situp => 90
    case BicepCurl => 50
  }

  /** Upper joint-angle threshold, in degrees: a larger angle is the top
      of a repetition. It lies strictly above the lower threshold and
      within the range [0, 180] that a joint angle can take. */
  function MaxRepAngle(e: ExerciseKind): (deg: nat)
    ensures MinRepAngle(e) < deg <= 180
  {
    match e
    case Pushup => 160
    case Squat => 160
    case Situp => 140
    case BicepCurl => 70
  }
}
