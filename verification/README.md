# AutoML wizard controller — a Dafny model

This project models the controller behind the AutoML wizard page
(`pages/AutoML.tsx`). The wizard takes a project through five stages:

- **UPLOAD**: upload a training file; it is validated by size and extension.
- **CLEANING**: run a simulated cleaning pass.
- **SELECTION**: choose models from a five-entry catalogue.
- **TRAINING**: watch a simulated progress bar.
- **RESULT**: read a leaderboard of mock results sorted by accuracy, with a
  report on the top model, and package the chosen model unless the project is
  flagged as poorly fit.

The React component becomes one immutable state record, `Workflow.State`.
Each handler, timer callback and effect is a pure transition on it:

- `Workflow.Enabled` says when the view offers a button or a timer is pending.
- `Workflow.Step` applies one enabled event.
- `Workflow.Run` applies a sequence of events.
- `Workflow.Inv` holds of every state the wizard can reach.

Modules follow the parts of the page:

| module | what it models |
|---|---|
| `Stages` | the stage type and the stepper's current/past marks |
| `Catalog` | the model catalogue and its lookup by id |
| `Upload` | the file validator: the text after the last dot, lower-cased, must be csv, xlsx or xls |
| `Selection` | the toggle of the model selection list |
| `Training` | the progress updater |
| `Rows` | the leaderboard row, its status and the ids of a list of rows |
| `Sorting` | the stable descending sort by accuracy, specified independently by `Sorting.IsStableDescSort` |
| `Results` | result generation, the fallback model list and the analysis report |
| `Workflow` | state, events, guards, invariant and traces |

Several things the source takes from its environment are parameters here:

- The project's "unfit" test, `projectName.includes('未拟合')`, is a boolean.
- The stage carried by the navigation state is `Option<Stage>`.
- The random draws are a sequence of `Results.Draw` values. Accuracy is
  counted in tenths of a percent and r2 in hundredths, the precisions that
  `toFixed(1)` and `toFixed(2)` keep.
- Each timer firing is an event of its own. Durations are not modelled.
- The effect that runs on entering RESULT is a separate event,
  `ResultEffectRan`. React renders RESULT once with an empty leaderboard
  before that effect fills it.

Behaviour of the page worth knowing:

- **Ties.** Results of equal accuracy keep the order of the selection.
  `Array.prototype.sort` is stable (ECMAScript 2019, section 22.1.3.27),
  and the rows are built in selection order.
- **Unknown ids.** Toggling an id the selection does not hold appends it,
  whether or not the catalogue lists it. The view only offers catalogue
  ids, so `Workflow.Enabled` admits only those.
- **Top of the ranges.** A poorly fit project can show 60.0% accuracy:
  `40 + 20u` with u < 1 rounds to 60.0 when u is close enough to 1,
  u = 0.999 for instance. Likewise a well fit one can show 95.0%, and r2
  can reach 0.50 or 0.95. The ranges are therefore inclusive at the top.
- **Direct entry.** Entering RESULT directly starts from the preselection:
  the selection starts as XGBoost and LightGBM, and every path into
  TRAINING needs a non-empty one. The three-model fallback of
  `generateResults` can never run (`Workflow.FallbackUnreachable`). A direct
  entry yields two results; the three-result case appears only as
  `Results.FallbackScenario`, about `Generate` on an empty selection.
- **Cleaning.** `startCleaning` arms a new timer on every call. Its button
  is disabled while cleaning runs and is replaced by "next" once the data is
  cleaned, so it is pressed once per session.
- **Rejected uploads.** A rejected upload keeps the previously accepted
  file. It still hides "parse and continue", because that button needs an
  empty error (`Workflow.UploadGate`).

## Model

| member | source | states |
|---|---|---|
| Stages.Index | pages/AutoML.tsx:210-216 | every stage has a position in the stepper's step list, and the step at that position is the stage |
| Stages.FindIndex | pages/AutoML.tsx:222 | `findIndex` gives -1 exactly when the item is absent; otherwise it gives a position holding the item with no earlier occurrence |
| Stages.StepperMarks | pages/AutoML.tsx:220-222 | exactly one step is marked current, the one at the stage's position; a step is marked past exactly when it comes before that position; no step is both |
| Catalog.FindIn | pages/AutoML.tsx:140 | `find` on the id succeeds exactly when some entry has that id, and returns the first entry of the list with that id |
| Catalog.Find | pages/AutoML.tsx:12-18 | the catalogue lookup succeeds exactly for catalogue ids and returns the catalogue entry with that id |
| Catalog.KnownIds | pages/AutoML.tsx:12-18 | xgboost, lightgbm, rf, linear and mlp are all catalogue ids |
| Upload.Split | pages/AutoML.tsx:76 | `split('.')` yields at least one part, no part contains a dot, and joining the parts with dots gives back the name |
| Upload.Extension | pages/AutoML.tsx:76 | `split('.').pop()` is a dot-free suffix of the name that is either the whole name or preceded by a dot |
| Upload.LastPartUnique | pages/AutoML.tsx:76 | the extension starts at the one position that follows the last dot, or at 0 when the name has no dot |
| Upload.Check | pages/AutoML.tsx:69-80 | an empty file is rejected as empty, whatever its name; a file is accepted exactly when it is non-empty and the lower-cased text after the last dot of its name (the whole name if it has none) is csv, xlsx or xls; any other rejection is for the format |
| Upload.IsSupported | pages/AutoML.tsx:76-77 | through `Upload.SupportedIff`: a name passes exactly when the lower-cased text after its last dot, or the whole dot-free name, is csv, xlsx or xls |
| Upload.SupportedIff | pages/AutoML.tsx:76-77 | a name is accepted exactly when the lower-cased text after its last dot (the whole name if it has none) is csv, xlsx or xls |
| Upload.BareNameCsvAccepted | pages/AutoML.tsx:76-77 | a file named just "CSV" passes the format test |
| Upload.LastDotDecides | pages/AutoML.tsx:76-77 | for `stem.ext` with a dot-free `ext`, only `ext` decides the format, whatever the stem holds |
| Upload.TrailingDotRejected | pages/AutoML.tsx:76-77 | a name ending in a dot has an empty extension and is rejected |
| Selection.RemoveAll | pages/AutoML.tsx:96 | the filter drops every occurrence of the id, keeps every other id with its multiplicity, and keeps the order |
| Selection.Toggle | pages/AutoML.tsx:94-98 | the toggled id is in the new selection exactly when it was not in the old one, and every other id is in it exactly when it was before; the lemmas below add order, multiplicity and the double-toggle laws |
| Selection.ToggleEffect | pages/AutoML.tsx:94-98 | toggling removes a present id and touches nothing else; it appends an absent id, catalogue id or not; afterwards the id is present exactly when it was absent before |
| Selection.RemoveAbsent | pages/AutoML.tsx:96 | filtering out an id that does not occur returns the list unchanged |
| Selection.ToggleTwiceAbsent | pages/AutoML.tsx:94-98 | toggling an absent id twice gives back the original list exactly |
| Selection.ToggleTwicePresent | pages/AutoML.tsx:94-98 | toggling a present id twice moves it to the end, once |
| Selection.ToggleKeepsDistinct | pages/AutoML.tsx:94-98 | a selection without repeats keeps that property under toggling |
| Selection.ToggleMembers | pages/AutoML.tsx:94-98 | no id other than the toggled one joins or leaves the selection |
| Training.Progress | pages/AutoML.tsx:106-117 | through `Training.ProgressAfter`: progress after n runs of the updater from 0 is min(100, 5n) |
| Training.ProgressAfter | pages/AutoML.tsx:100-117 | from 0, progress after n ticks is min(100, 5n), a multiple of 5 within [0, 100] |
| Training.FullBranchAt | pages/AutoML.tsx:110-113 | the tick that finds 100 is exactly the 21st or a later one |
| Sorting.SortDesc | pages/AutoML.tsx:164 | the sort keeps the length and orders the rows by accuracy, highest first |
| Sorting.SortIds | pages/AutoML.tsx:164 | the sort permutes the rows' ids |
| Sorting.SortMembers | pages/AutoML.tsx:164 | the sort neither adds nor loses rows |
| Sorting.InsertStable | pages/AutoML.tsx:164 | inserting a row puts it behind every row of equal accuracy and leaves the order of the rest alone |
| Sorting.SortIsStable | pages/AutoML.tsx:164 | the sort meets the independent definition of a stable descending sort: ordered by accuracy, with rows of equal accuracy in input order |
| Sorting.StableSortUnique | pages/AutoML.tsx:164 | two lists that are both sorted and list every accuracy's rows in the same order are equal |
| Sorting.SortDescIsTheStableSort | pages/AutoML.tsx:164 | any stable descending order of the input is the sort's output |
| Results.ModelsToRun | pages/AutoML.tsx:133-136 | the list of models to run is never empty, and it holds only catalogue ids when the selection does |
| Results.Generate | pages/AutoML.tsx:133-164 | one row per model to run with the same ids; each row has its catalogue name and family, the status of the fit flag and scores in the flag's ranges; the rows are sorted by accuracy with ties in selection order |
| Results.MakeResult | pages/AutoML.tsx:139-161 | a row carries its model's id and its draw; an in-range draw gives a row with the catalogue's name and family, the fit flag's status and scores in range |
| Results.Build | pages/AutoML.tsx:139-161 | one row per id, in the order of the ids, each carrying its own draw; with in-range draws every row describes its model |
| Results.Analyze | pages/AutoML.tsx:170-203 | the report is an alert exactly for an unfit project; `Results.AnalysisQuotesBest` shows it quotes the top row |
| Results.AnalysisQuotesBest | pages/AutoML.tsx:170-203 | the report is an alert exactly for an unfit project; it quotes the first row's accuracy, the highest of all; a fit project's report names the first row's model, family, accuracy and r2 |
| Results.UnfitReport | pages/AutoML.tsx:143-146 | a poorly fit project's rows all lie between 40.0% and 60.0% with the "converged poorly" status, and its report is an alert quoting the top accuracy |
| Results.FallbackScenario | pages/AutoML.tsx:133-136 | an empty selection of a well fit project yields rows for xgboost, lightgbm and rf, with a top accuracy of at least 85.0% |
| Workflow.Init | pages/AutoML.tsx:47-61 | the first state satisfies the invariant; its stage comes from the navigation state (UPLOAD by default); the progress interval runs exactly when it starts in TRAINING |
| Workflow.InitialSelectionOk | pages/AutoML.tsx:54 | the preselection is two distinct catalogue ids |
| Workflow.HandleFileUpload | pages/AutoML.tsx:65-83 | an upload attempt clears the error first; with no file nothing else changes; an empty file or an unsupported name sets its error and keeps the stored file; an accepted file is stored; no other field changes |
| Workflow.EnterResult | pages/AutoML.tsx:123-168 | results are generated only on entering RESULT with none yet, and otherwise nothing changes; generated rows are one per model to run and sorted; the top row is selected; the report is the top row's |
| Workflow.GoToCleaning | pages/AutoML.tsx:288 | through `Workflow.Step` and `Workflow.UploadGate`: offered only with a stored file and no error, it moves UPLOAD exactly one place forward, to CLEANING, and undoes nothing |
| Workflow.StartCleaning | pages/AutoML.tsx:85-88 | through `Workflow.CleaningRound`: offered only before cleaning, it marks cleaning in progress without marking the data cleaned, and afterwards neither "next" nor a second clean is offered |
| Workflow.FinishCleaning | pages/AutoML.tsx:88-91 | through `Workflow.CleaningRound` and `Workflow.Step`: the timer, and no other event, marks the data cleaned, which is never undone, and "next" appears |
| Workflow.GoToSelection | pages/AutoML.tsx:360 | through `Workflow.CleaningRound`: offered only once the data is cleaned, it moves CLEANING to SELECTION |
| Workflow.ToggleModel | pages/AutoML.tsx:94-98 | through `Workflow.ToggleKeepsInv` and the `Selection` lemmas: the selection stays free of repeats and made of catalogue ids |
| Workflow.StartTraining | pages/AutoML.tsx:100-103 | through `Workflow.TrainingTimeline` at n = 0: offered only with a non-empty selection, it enters TRAINING with progress 0 and the interval running |
| Workflow.TickProgress | pages/AutoML.tsx:109-116 | through `Workflow.TickFacts` and `Workflow.TrainingTimeline`: below 100 a firing adds 5; at 100 it clears the interval and schedules RESULT |
| Workflow.FinishTraining | pages/AutoML.tsx:112 | through `Workflow.ResultTimerEntersResult`, `Workflow.Step` and `Workflow.ResultTimerFiresOnce`: the result timer's firing enters RESULT, it is the only way into RESULT, and it fires at most once |
| Workflow.SelectResultModel | pages/AutoML.tsx:515 | through `Workflow.Inv`: offered only for a listed row, so the selected id is always one of the results |
| Workflow.HandlePackage | pages/AutoML.tsx:454-456 | through `Workflow.PackagedAtMostOnce` and `Workflow.UnfitNeverPackaged`: packaging is one-way, happens at most once, and never for an unfit project |
| Workflow.Enabled | pages/AutoML.tsx:277-586 | the view's guards; `Workflow.UploadGate`, `Workflow.CleaningRound`, `Workflow.TrainingTimeline` and `Workflow.PackagedAtMostOnce` show which actions each state offers |
| Workflow.Step | pages/AutoML.tsx:63-168 | an enabled event keeps the invariant and the fit flag; each of the four stage-moving events moves the stage exactly one place forward and every other event leaves it; only the result timer enters RESULT; only the cleaning timer marks the data cleaned; cleaning, packaging and generated results are never undone |
| Workflow.StepKeepsInv | pages/AutoML.tsx:63-168 | every enabled event keeps the invariant of reachable states |
| Workflow.ToggleKeepsInv | pages/AutoML.tsx:384-387 | toggling a catalogue model keeps the selection free of repeats and made of catalogue ids |
| Workflow.Run | pages/AutoML.tsx:38-204 | along any valid run the invariant and the fit flag are kept; the stage never moves back; cleaning, packaging and generated results are never undone |
| Workflow.TickFacts | pages/AutoML.tsx:109-116 | an interval firing below 100 adds 5 and keeps the interval running; at 100 it clears the interval and schedules the move to RESULT |
| Workflow.TrainingTimeline | pages/AutoML.tsx:100-120 | after "start training" and n ≤ 21 ticks the bar shows min(100, 5n); the interval runs through the 20th tick; the 21st clears it and schedules RESULT once |
| Workflow.ResultTimerFiresOnce | pages/AutoML.tsx:110-113 | in any valid run the transition to RESULT fires at most once, and never once RESULT has been reached |
| Workflow.PackagedAtMostOnce | pages/AutoML.tsx:577-586 | in any valid run packaging happens at most once, and never for an unfit or already packaged project |
| Workflow.UnfitNeverPackaged | pages/AutoML.tsx:577-586 | no run of an unfit project ever packages it |
| Workflow.FallbackUnreachable | pages/AutoML.tsx:133-136 | in every reachable state at TRAINING or later the selection is non-empty, so results are built from the selection itself |
| Workflow.UploadGate | pages/AutoML.tsx:277-289 | after an upload attempt, "parse and continue" is offered exactly when a file is stored and this attempt was not rejected |
| Workflow.CleaningRound | pages/AutoML.tsx:349-365 | before cleaning, "next" is not offered; after the clean click cleaning is in progress, the data is not yet cleaned and neither "next" nor another clean is offered; clean, timer and next form a valid run that reaches SELECTION with the data cleaned |
| Workflow.ResultTimerEntersResult | pages/AutoML.tsx:104-112 | the result timer is pending only on TRAINING at 100%, and its firing enters RESULT with nothing scheduled, no interval running and no results yet |
| Workflow.ResultEffectIdempotent | pages/AutoML.tsx:123-127 | once the result effect has run, running it again with any draws changes nothing |

`Workflow.Enabled` encodes the view's guards:

- "Parse and continue" needs a stored file and no error (lines 277-289).
- The clean button is disabled while cleaning runs, and once the data is
  cleaned it is replaced by "next" (lines 349-365).
- Only catalogue models can be toggled (lines 384-387).
- "Start training" needs a non-empty selection (lines 409-411).
- Only listed rows can be clicked (lines 512-515).
- The package button is disabled for an unfit project and is replaced once
  the model is packaged (lines 577-586).

## Left out

- pages/AIStudio.tsx: it wraps a third-party page in an iframe. Its only
  logic is a default URL and a substring test.
- Rendering: the JSX layout, icons, the prediction chart and its hard-coded
  data. They are presentation only.
- Timer durations (1500 ms, 200 ms, 500 ms). Timer firings are events, and
  real time is not modelled.
- Teardown and interval cleanup. In the model the stage never leaves
  TRAINING while the interval runs, and never leaves CLEANING while the
  cleaning timer is pending.
- `Math.random`, `toFixed` and `parseFloat`. The draws are parameters,
  already rounded, constrained to the ranges of lines 143-151.
- The Chinese report texts. They are abstracted as `Results.Analysis`,
  which carries the fields each text interpolates.
- `navigate` and the back buttons. Leaving the page ends the session, so
  that is not a transition of the wizard.
- The project-name test `projectName.includes('未拟合')`. The fit flag is a
  boolean input.
- The "view report" and "export" buttons (lines 599-606). They have no
  handlers.
- Upload.ToLower: it lower-cases ASCII letters only, where
  `String.prototype.toLowerCase` follows Unicode. No non-ASCII character
  lower-cases to one of the letters of csv, xlsx or xls, so acceptance is the
  same.
- Workflow.EnterResult: it requires catalogue ids in the selection. With an
  unknown id the source's `find(...)!` would yield `undefined`, and reading
  its name would throw. The guards keep unknown ids out of the selection.
