/** The five stages of the AutoML wizard and the stepper that shows them
    (pages/AutoML.tsx:10 and 209-240). */
module Stages {

  /** The workflow stage; the order of the constructors is the order of the wizard. */
  datatype Stage = Upload | Cleaning | Selection | Training | Result

  /** The stepper's step list, in display order. */
  const Steps: seq<Stage> := [Upload, Cleaning, Selection, Training, Result]

  /** Position of a stage in the linear workflow. */
  function Index(s: Stage): (i: nat)
    ensures i < |Steps| && Steps[i] == s
  {
    match s
    case Upload => 0
    case Cleaning => 1
    case Selection => 2
    case Training => 3
    case Result => 4
  }

  /** `Array.prototype.findIndex` with an equality test: the first position
      holding `x`, or -1 when there is none. */
  function FindIndex<T(==)>(xs: seq<T>, x: T): (r: int)
    ensures -1 <= r < |xs|
    ensures r == -1 <==> x !in xs
    ensures 0 <= r ==> xs[r] == x && x !in xs[..r]
  {
    if |xs| == 0 then -1
    else if xs[0] == x then 0
    else
      var k := FindIndex(xs[1..], x);
      if k == -1 then -1 else k + 1
  }

  /** The stepper marks step `k` as the current one when its id is the stage. */
  predicate IsCurrent(stage: Stage, k: nat)
    requires k < |Steps|
  {
    Steps[k] == stage
  }

  /** The stepper marks step `k` as done when the stage's position, found by
      searching the step list, lies beyond `k`. */
  predicate IsPast(stage: Stage, k: nat)
    requires k < |Steps|
  {
    FindIndex(Steps, stage) > k
  }

  /** Exactly one step is current, namely the one at the stage's position, and
      a step is past exactly when it lies before that position; so no step is
      both current and past. */
  lemma StepperMarks(stage: Stage)
    ensures FindIndex(Steps, stage) == Index(stage)
    ensures forall k: nat :: k < |Steps| ==> (IsCurrent(stage, k) <==> k == Index(stage))
    ensures forall k: nat :: k < |Steps| ==> (IsPast(stage, k) <==> k < Index(stage))
    ensures forall k: nat :: k < |Steps| ==> !(IsCurrent(stage, k) && IsPast(stage, k))
  {
    assert Steps[Index(stage)] == stage;
  }
}
