/** The simulated training progress of the TRAINING stage
    (pages/AutoML.tsx:100-120): a counter raised by a fixed step on every
    interval tick until it is full. */
module Training {

  const StepSize: nat := 5
  const Full: nat := 100

  /** The progress updater of one tick: below 100 it adds the step, at 100
      (or beyond) it holds at 100. The returned flag says whether this tick
      took the "full" branch, which clears the interval and schedules the
      move to RESULT. */
  function TickProgress(p: nat): (r: (nat, bool))
    ensures r.1 <==> p >= Full
    ensures r.1 ==> r.0 == Full
    ensures !r.1 ==> r.0 == p + StepSize
  {
    if p >= Full then (Full, true) else (p + StepSize, false)
  }

  /** Progress after `n` runs of the updater from 0. Full is a fixed point of
      the updater, so this is also the progress shown after the interval has
      been cleared. */
  function Progress(n: nat): (p: nat)
  {
    if n == 0 then 0
    else
      var prev := Progress(n - 1);
      TickProgress(prev).0
  }

  function Min(a: int, b: int): int { if a <= b then a else b }

  /** Starting from 0, progress after `n` ticks is min(100, 5n); it is a
      multiple of the step and never leaves [0, 100]. */
  lemma {:induction false} ProgressAfter(n: nat)
    ensures Progress(n) == Min(Full, StepSize * n)
    ensures Progress(n) % StepSize == 0 && Progress(n) <= Full
  {
    if n > 0 {
      ProgressAfter(n - 1);
    }
  }

  /** The tick that follows `n` earlier ticks takes the full branch exactly
      when `n` is at least 20: the 21st tick is the first to find 100. */
  lemma {:induction false} FullBranchAt(n: nat)
    ensures TickProgress(Progress(n)).1 <==> n >= Full / StepSize
  {
    ProgressAfter(n);
  }
}
