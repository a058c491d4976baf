/** The AutoML wizard controller (pages/AutoML.tsx:38-204, 288, 360, 409-411,
    454-456, 577-586): one immutable state record, one pure transition per user
    action or timer firing, the guards under which the view offers each
    action, and the invariant every reachable state keeps. */
module Workflow {
  import opened Wrappers
  import opened Stages
  import Catalog
  import Upload
  import Selection
  import Training
  import Rows
  import Sorting
  import Results

  /** The component's state. `ticking` says the progress interval is
      installed, `resultScheduled` that the one-shot move to RESULT is pending;
      the cleaning timer is pending exactly while `isCleaning` holds. `unfit`
      is the project-name test, fixed for the session. */
  datatype State = State(
    stage: Stage,
    unfit: bool,
    file: Option<Upload.File>,
    error: Option<Upload.UploadError>,
    isCleaning: bool,
    dataCleaned: bool,
    selectedModels: seq<string>,
    trainingProgress: nat,
    ticking: bool,
    resultScheduled: bool,
    results: seq<Rows.ModelResult>,
    selectedResult: Option<string>,
    isPackaged: bool,
    analysis: Option<Results.Analysis>)

  /** XGBoost and LightGBM are preselected. */
  const InitialSelection: seq<string> := ["xgboost", "lightgbm"]

  /** What holds of every state the wizard can reach. */
  ghost predicate Inv(s: State) {
    && (forall id :: id in s.selectedModels ==> Catalog.IsCatalogId(id))
    && Selection.Distinct(s.selectedModels)
    && (Index(s.stage) >= Index(Training) ==> |s.selectedModels| > 0)
    && s.trainingProgress <= Training.Full && s.trainingProgress % Training.StepSize == 0
    && (s.ticking ==> s.stage == Training && !s.resultScheduled)
    && (s.resultScheduled ==> s.stage == Training && s.trainingProgress == Training.Full)
    && (s.isCleaning ==> s.stage == Cleaning && !s.dataCleaned)
    && (s.file.Some? ==> Upload.Check(s.file.value) == None)
    && (|s.results| > 0 ==> s.stage == Result && Sorting.SortedDesc(s.results))
    && (forall r :: r in s.results ==> Results.Describes(r, s.unfit))
    && (s.selectedResult.Some? ==> s.selectedResult.value in Rows.Ids(s.results))
    && (s.analysis.Some? <==> |s.results| > 0)
    && (s.analysis.Some? ==> s.analysis.value == Results.Analyze(s.results, s.unfit))
    && (s.isPackaged ==> s.stage == Result && !s.unfit)
  }

  /** The state on mounting. The stage comes from the navigation state when
      it carries one, UPLOAD otherwise; entering on TRAINING installs the
      progress interval at once. */
  function Init(navStage: Option<Stage>, unfit: bool): (s: State)
    ensures Inv(s)
    ensures s.stage == (if navStage.Some? then navStage.value else Upload)
    ensures s.ticking <==> s.stage == Training
  {
    var stage := if navStage.Some? then navStage.value else Upload;
    InitialSelectionOk();
    State(stage, unfit, None, None, false, false, InitialSelection, 0,
          stage == Training, false, [], None, false, None)
  }

  lemma InitialSelectionOk()
    ensures forall id :: id in InitialSelection ==> Catalog.IsCatalogId(id)
    ensures Selection.Distinct(InitialSelection) && |InitialSelection| > 0
  {
    Catalog.KnownIds();
    var a, b := InitialSelection[0], InitialSelection[1];
    assert a[0] != b[0];
    Selection.DistinctPair(a, b);
  }

  // ---- Handlers, one per action or timer ----

  /** `handleFileUpload`: the error is cleared first; with no file nothing
      else happens; an empty file or an unsupported name sets the matching
      error and keeps the stored file; otherwise the file is stored. */
  function HandleFileUpload(s: State, f: Option<Upload.File>): (r: State)
    ensures r == s.(file := r.file, error := r.error)
    ensures f.None? ==> r.error == None && r.file == s.file
    ensures f.Some? && f.value.size == 0 ==> r.error == Some(Upload.EmptyFile) && r.file == s.file
    ensures f.Some? && f.value.size > 0 ==>
      if Upload.IsSupported(f.value.name) then r.error == None && r.file == f
      else r.error == Some(Upload.UnsupportedFormat) && r.file == s.file
  {
    match f
    case None => s.(error := None)
    case Some(file) =>
      var e := Upload.Check(file);
      if e.Some? then s.(error := e) else s.(file := f, error := None)
  }

  /** "Parse and continue" (line 288). */
  function GoToCleaning(s: State): State { s.(stage := Cleaning) }

  /** `startCleaning`: marks cleaning in progress and arms the timer. */
  function StartCleaning(s: State): State { s.(isCleaning := true) }

  /** The cleaning timer's callback. */
  function FinishCleaning(s: State): State { s.(isCleaning := false, dataCleaned := true) }

  /** "Next: model selection" (line 360). */
  function GoToSelection(s: State): State { s.(stage := Selection) }

  /** `toggleModel`. */
  function ToggleModel(s: State, id: string): State
  {
    s.(selectedModels := Selection.Toggle(s.selectedModels, id))
  }

  /** `startTraining`; the stage change installs the progress interval. */
  function StartTraining(s: State): State
  {
    s.(stage := Training, trainingProgress := 0, ticking := true)
  }

  /** One firing of the progress interval. */
  function TickProgress(s: State): State
  {
    var (p, full) := Training.TickProgress(s.trainingProgress);
    if full then s.(trainingProgress := p, ticking := false, resultScheduled := true)
    else s.(trainingProgress := p)
  }

  /** The one-shot timer scheduled by the last tick moves to RESULT. */
  function FinishTraining(s: State): State
  {
    s.(stage := Result, resultScheduled := false)
  }

  /** The effect run on entering RESULT: when there are no results yet they
      are generated, the top one is selected and the report is written;
      otherwise nothing changes. */
  function EnterResult(s: State, draws: seq<Results.Draw>): (r: State)
    requires s.stage == Result && |s.results| == 0 ==>
      && (forall id :: id in s.selectedModels ==> Catalog.IsCatalogId(id))
      && Results.DrawsFit(draws, |Results.ModelsToRun(s.selectedModels)|, s.unfit)
    ensures s.stage != Result || |s.results| > 0 ==> r == s
    ensures s.stage == Result && |s.results| == 0 ==>
      && r == s.(results := r.results, selectedResult := r.selectedResult, analysis := r.analysis)
      && |r.results| == |Results.ModelsToRun(s.selectedModels)|
      && multiset(Rows.Ids(r.results)) == multiset(Results.ModelsToRun(s.selectedModels))
      && Sorting.SortedDesc(r.results)
      && r.selectedResult == Some(r.results[0].id)
      && r.analysis == Some(Results.Analyze(r.results, s.unfit))
  {
    if s.stage == Result && |s.results| == 0 then Populate(s, draws) else s
  }

  /** The rows, the selection and the report `EnterResult` writes. */
  function Populate(s: State, draws: seq<Results.Draw>): (r: State)
    requires forall id :: id in s.selectedModels ==> Catalog.IsCatalogId(id)
    requires Results.DrawsFit(draws, |Results.ModelsToRun(s.selectedModels)|, s.unfit)
    ensures r == s.(results := r.results, selectedResult := r.selectedResult, analysis := r.analysis)
    ensures |r.results| == |Results.ModelsToRun(s.selectedModels)|
    ensures multiset(Rows.Ids(r.results)) == multiset(Results.ModelsToRun(s.selectedModels))
    ensures Sorting.SortedDesc(r.results)
    ensures r.selectedResult == Some(r.results[0].id)
    ensures r.analysis == Some(Results.Analyze(r.results, s.unfit))
  {
    var rs := Results.Generate(s.selectedModels, s.unfit, draws);
    s.(results := rs, selectedResult := Some(rs[0].id),
       analysis := Some(Results.Analyze(rs, s.unfit)))
  }

  /** A click on a leaderboard row selects that model. */
  function SelectResultModel(s: State, id: string): State { s.(selectedResult := Some(id)) }

  /** `handlePackage`. */
  function HandlePackage(s: State): State { s.(isPackaged := true) }

  // ---- Events and the guards under which they can occur ----

  datatype Event =
    | FileSelected(f: Option<Upload.File>)
    | NextFromUpload
    | CleanClicked
    | CleaningTimerFired
    | NextFromCleaning
    | ModelClicked(id: string)
    | TrainClicked
    | IntervalFired
    | ResultTimerFired
    | ResultEffectRan(draws: seq<Results.Draw>)
    | RowClicked(id: string)
    | PackageClicked

  /** Whether the view offers the action, or the timer is pending. */
  predicate Enabled(s: State, e: Event) {
    match e
    case FileSelected(_) => s.stage == Upload
    case NextFromUpload => s.stage == Upload && s.file.Some? && s.error.None?
    case CleanClicked => s.stage == Cleaning && !s.dataCleaned && !s.isCleaning
    case CleaningTimerFired => s.isCleaning
    case NextFromCleaning => s.stage == Cleaning && s.dataCleaned
    case ModelClicked(id) => s.stage == Selection && Catalog.IsCatalogId(id)
    case TrainClicked => s.stage == Selection && |s.selectedModels| > 0
    case IntervalFired => s.ticking
    case ResultTimerFired => s.resultScheduled
    case ResultEffectRan(draws) =>
      s.stage == Result && Results.DrawsFit(draws, |Results.ModelsToRun(s.selectedModels)|, s.unfit)
    case RowClicked(id) => s.stage == Result && id in Rows.Ids(s.results)
    case PackageClicked => s.stage == Result && !s.isPackaged && !s.unfit
  }

  /** Whether the event moves the wizard to another stage. */
  predicate MovesStage(e: Event) {
    e.NextFromUpload? || e.NextFromCleaning? || e.TrainClicked? || e.ResultTimerFired?
  }

  /** The handler an event runs. */
  function Apply(s: State, e: Event): State
    requires e.ResultEffectRan? && s.stage == Result && |s.results| == 0 ==>
      && (forall id :: id in s.selectedModels ==> Catalog.IsCatalogId(id))
      && Results.DrawsFit(e.draws, |Results.ModelsToRun(s.selectedModels)|, s.unfit)
  {
    match e
    case FileSelected(f) => HandleFileUpload(s, f)
    case NextFromUpload => GoToCleaning(s)
    case CleanClicked => StartCleaning(s)
    case CleaningTimerFired => FinishCleaning(s)
    case NextFromCleaning => GoToSelection(s)
    case ModelClicked(id) => ToggleModel(s, id)
    case TrainClicked => StartTraining(s)
    case IntervalFired => TickProgress(s)
    case ResultTimerFired => FinishTraining(s)
    case ResultEffectRan(draws) => EnterResult(s, draws)
    case RowClicked(id) => SelectResultModel(s, id)
    case PackageClicked => HandlePackage(s)
  }

  /** One enabled event applied to a reachable state. The invariant is kept;
      the stage only moves forward, by exactly one, and only on the four
      stage-moving events; cleaning, packaging and generated results are
      never undone; only the result timer enters RESULT. */
  function Step(s: State, e: Event): (r: State)
    requires Inv(s) && Enabled(s, e)
    ensures Inv(r)
    ensures r.unfit == s.unfit
    ensures MovesStage(e) ==> Index(r.stage) == Index(s.stage) + 1
    ensures !MovesStage(e) ==> r.stage == s.stage
    ensures r.stage == Result && s.stage != Result ==> e.ResultTimerFired?
    ensures s.dataCleaned ==> r.dataCleaned
    ensures !s.dataCleaned && r.dataCleaned ==> e.CleaningTimerFired?
    ensures s.isPackaged ==> r.isPackaged
    ensures |s.results| > 0 ==> r.results == s.results
  {
    StepKeepsInv(s, e);
    StepMoves(s, e);
    Apply(s, e)
  }

  lemma StepMoves(s: State, e: Event)
    requires Inv(s) && Enabled(s, e)
    ensures var r := Apply(s, e);
      && r.unfit == s.unfit
      && (MovesStage(e) ==> Index(r.stage) == Index(s.stage) + 1)
      && (!MovesStage(e) ==> r.stage == s.stage)
      && (r.stage == Result && s.stage != Result ==> e.ResultTimerFired?)
      && (s.dataCleaned ==> r.dataCleaned)
      && (!s.dataCleaned && r.dataCleaned ==> e.CleaningTimerFired?)
      && (s.isPackaged ==> r.isPackaged)
      && (|s.results| > 0 ==> r.results == s.results)
  {
    match e
    case ResultEffectRan(draws) =>
    case _ =>
  }

  lemma StepKeepsInv(s: State, e: Event)
    requires Inv(s) && Enabled(s, e)
    ensures Inv(Apply(s, e))
  {
    match e
    case FileSelected(f) => UploadKeepsInv(s, f);
    case NextFromUpload =>
    case CleanClicked =>
    case CleaningTimerFired =>
    case NextFromCleaning =>
    case ModelClicked(id) => ToggleKeepsInv(s, id);
    case TrainClicked =>
    case IntervalFired => TickKeepsInv(s);
    case ResultTimerFired =>
    case ResultEffectRan(draws) => EnterResultKeepsInv(s, draws);
    case RowClicked(id) =>
    case PackageClicked =>
  }

  lemma UploadKeepsInv(s: State, f: Option<Upload.File>)
    requires Inv(s)
    ensures Inv(HandleFileUpload(s, f))
  {
  }

  lemma ToggleKeepsInv(s: State, id: string)
    requires Inv(s) && s.stage == Selection && Catalog.IsCatalogId(id)
    ensures Inv(ToggleModel(s, id))
  {
    Selection.ToggleKeepsDistinct(s.selectedModels, id);
    Selection.ToggleMembers(s.selectedModels, id);
  }

  lemma TickKeepsInv(s: State)
    requires Inv(s) && s.ticking
    ensures Inv(TickProgress(s))
  {
  }

  lemma EnterResultKeepsInv(s: State, draws: seq<Results.Draw>)
    requires Inv(s) && Enabled(s, ResultEffectRan(draws))
    ensures Inv(EnterResult(s, draws))
  {
    if |s.results| == 0 {
      var r := EnterResult(s, draws);
      Rows.IdsAt(r.results, 0);
    }
  }

  // ---- Traces ----

  /** Every event of `evs` is enabled in the state it meets. */
  ghost predicate ValidTrace(s: State, evs: seq<Event>)
    requires Inv(s)
    decreases |evs|
  {
    |evs| == 0 || (Enabled(s, evs[0]) && ValidTrace(Step(s, evs[0]), evs[1..]))
  }

  /** The state a valid trace leads to. Along any trace the invariant holds,
      the stage never moves back, and cleaning, packaging and generated
      results are never undone. */
  function Run(s: State, evs: seq<Event>): (r: State)
    requires Inv(s) && ValidTrace(s, evs)
    ensures Inv(r)
    ensures r.unfit == s.unfit
    ensures Index(s.stage) <= Index(r.stage)
    ensures s.dataCleaned ==> r.dataCleaned
    ensures s.isPackaged ==> r.isPackaged
    ensures |s.results| > 0 ==> r.results == s.results
    decreases |evs|
  {
    if |evs| == 0 then s else Run(Step(s, evs[0]), evs[1..])
  }

  /** Running `a` then `b` is running `a + b`. */
  lemma {:induction false} RunAppend(s: State, a: seq<Event>, b: seq<Event>)
    requires Inv(s)
    ensures ValidTrace(s, a + b) <==> ValidTrace(s, a) && ValidTrace(Run(s, a), b)
    ensures ValidTrace(s, a + b) ==> Run(s, a + b) == Run(Run(s, a), b)
    decreases |a|
  {
    if |a| == 0 {
      assert a + b == b;
    } else {
      assert (a + b)[0] == a[0];
      assert (a + b)[1..] == a[1..] + b;
      if Enabled(s, a[0]) {
        RunAppend(Step(s, a[0]), a[1..], b);
      }
    }
  }

  /** Extending a valid trace by one enabled event. */
  lemma RunSnoc(s: State, evs: seq<Event>, e: Event)
    requires Inv(s) && ValidTrace(s, evs) && Enabled(Run(s, evs), e)
    ensures ValidTrace(s, evs + [e])
    ensures Run(s, evs + [e]) == Step(Run(s, evs), e)
  {
    var m := Run(s, evs);
    var t := Step(m, e);
    assert [e][0] == e && [e][1..] == [];
    assert ValidTrace(t, []) && Run(t, []) == t;
    assert ValidTrace(m, [e]);
    assert Run(m, [e]) == Run(t, []);
    RunAppend(s, evs, [e]);
  }

  /** What one firing of the progress interval does. */
  lemma TickFacts(s: State)
    requires Inv(s) && s.ticking
    ensures var r := Step(s, IntervalFired);
      && r.stage == Training
      && (s.trainingProgress < Training.Full ==>
            r.trainingProgress == s.trainingProgress + Training.StepSize && r.ticking && !r.resultScheduled)
      && (s.trainingProgress == Training.Full ==>
            r.trainingProgress == Training.Full && !r.ticking && r.resultScheduled)
  {
  }

  /** How often `e` occurs in `evs`. */
  function Count(evs: seq<Event>, e: Event): nat
  {
    if |evs| == 0 then 0 else (if evs[0] == e then 1 else 0) + Count(evs[1..], e)
  }

  /** The one-shot timer that enters RESULT fires at most once in a session,
      and never once RESULT is reached. */
  lemma {:induction false} ResultTimerFiresOnce(s: State, evs: seq<Event>)
    requires Inv(s) && ValidTrace(s, evs)
    ensures Count(evs, ResultTimerFired) <= (if s.stage == Result then 0 else 1)
    decreases |evs|
  {
    if |evs| > 0 {
      var t := Step(s, evs[0]);
      ResultTimerFiresOnce(t, evs[1..]);
      if evs[0] == ResultTimerFired {
        assert t.stage == Result;
      } else if s.stage == Result {
        assert t.stage == Result;
      }
    }
  }

  /** Packaging happens at most once, and never for an unfit project. */
  lemma {:induction false} PackagedAtMostOnce(s: State, evs: seq<Event>)
    requires Inv(s) && ValidTrace(s, evs)
    ensures Count(evs, PackageClicked) <= (if s.isPackaged || s.unfit then 0 else 1)
    decreases |evs|
  {
    if |evs| > 0 {
      PackagedAtMostOnce(Step(s, evs[0]), evs[1..]);
    }
  }

  /** An unfit project is never packaged, whatever the user does. */
  lemma UnfitNeverPackaged(navStage: Option<Stage>, evs: seq<Event>)
    requires ValidTrace(Init(navStage, true), evs)
    ensures !Run(Init(navStage, true), evs).isPackaged
  {
  }

  /** The empty-selection fallback of `generateResults` is dead: whichever
      stage the wizard is entered on, every state in TRAINING or RESULT has
      a non-empty selection, so the results are built from it. */
  lemma FallbackUnreachable(navStage: Option<Stage>, unfit: bool, evs: seq<Event>)
    requires ValidTrace(Init(navStage, unfit), evs)
    ensures var s := Run(Init(navStage, unfit), evs);
      Index(s.stage) >= Index(Training) ==>
        |s.selectedModels| > 0 && Results.ModelsToRun(s.selectedModels) == s.selectedModels
  {
  }

  /** `n` firings of the progress interval. */
  function Ticks(n: nat): (evs: seq<Event>)
    ensures |evs| == n && forall i :: 0 <= i < n ==> evs[i] == IntervalFired
  {
    if n == 0 then [] else Ticks(n - 1) + [IntervalFired]
  }

  /** After "start training" and n ticks the bar shows min(100, 5n); the
      interval keeps running through the 20th tick, and the 21st clears it
      and schedules the move to RESULT, after which no tick can come. */
  lemma {:induction false} TrainingTimeline(s: State, n: nat)
    requires Inv(s) && Enabled(s, TrainClicked)
    requires n <= 21
    ensures ValidTrace(Step(s, TrainClicked), Ticks(n))
    ensures var r := Run(Step(s, TrainClicked), Ticks(n));
      && r.stage == Training
      && r.trainingProgress == Training.Min(Training.Full, Training.StepSize * n)
      && (r.ticking <==> n <= 20)
      && (r.resultScheduled <==> n == 21)
  {
    var t := Step(s, TrainClicked);
    if n > 0 {
      TrainingTimeline(s, n - 1);
      var b := Run(t, Ticks(n - 1));
      RunSnoc(t, Ticks(n - 1), IntervalFired);
      TickFacts(b);
      assert n - 1 < 20 ==> b.trainingProgress == Training.StepSize * (n - 1) < Training.Full;
    }
  }

  /** After an upload attempt, "parse and continue" is offered exactly when a
      file is stored and the attempt was not rejected: a rejected attempt
      hides it even though an earlier accepted file is still held. */
  lemma UploadGate(s: State, f: Option<Upload.File>)
    requires Inv(s) && Enabled(s, FileSelected(f))
    ensures var r := Step(s, FileSelected(f));
      Enabled(r, NextFromUpload) <==>
        r.file.Some? && (f.None? || (f.value.size > 0 && Upload.IsSupported(f.value.name)))
  {
  }

  /** The cleaning round: "clean" arms the timer, its firing marks the data
      cleaned, and only then is "next" offered; before cleaning it is not. */
  lemma CleaningRound(s: State)
    requires Inv(s) && s.stage == Cleaning && !s.dataCleaned && !s.isCleaning
    ensures !Enabled(s, NextFromCleaning)
    ensures var c := Step(s, CleanClicked);
      c.isCleaning && !c.dataCleaned && !Enabled(c, NextFromCleaning) && !Enabled(c, CleanClicked)
    ensures ValidTrace(s, [CleanClicked, CleaningTimerFired, NextFromCleaning])
    ensures var r := Run(s, [CleanClicked, CleaningTimerFired, NextFromCleaning]);
      r.stage == Selection && r.dataCleaned && !r.isCleaning
  {
  }

  /** The one-shot timer the last tick schedules is what moves training on:
      while it is pending the page is on TRAINING at 100%, and its firing
      enters RESULT and leaves nothing scheduled. */
  lemma ResultTimerEntersResult(s: State)
    requires Inv(s) && Enabled(s, ResultTimerFired)
    ensures s.stage == Training && s.trainingProgress == Training.Full
    ensures var r := Step(s, ResultTimerFired);
      r.stage == Result && !r.resultScheduled && !r.ticking && |r.results| == 0
  {
  }

  /** Results are generated once: after the effect has run, running it again,
      whatever the draws, changes nothing. */
  lemma ResultEffectIdempotent(s: State, d1: seq<Results.Draw>, d2: seq<Results.Draw>)
    requires Inv(s) && Enabled(s, ResultEffectRan(d1))
    ensures var r := Step(s, ResultEffectRan(d1));
      |r.results| > 0 && (Enabled(r, ResultEffectRan(d2)) ==> Step(r, ResultEffectRan(d2)) == r)
  {
  }
}
