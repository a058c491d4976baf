/** Result generation on entering the RESULT stage (pages/AutoML.tsx:129-204):
    one mock result per model to run, ordered by accuracy, the top one
    selected, and the analysis report derived from the top result. */
module Results {
  import Catalog
  import opened Rows
  import opened Sorting

  /** One random draw for one model, already rounded the way `toFixed`
      rounds it: accuracy in tenths of a percent, r2 in hundredths. */
  datatype Draw = Draw(accuracy: int, r2: int)

  /** The ranges of the draws. A poorly fit project draws accuracy from
      40 + 20u and r2 from 0.2 + 0.3u, a well fit one accuracy from 85 + 10u
      and r2 from 0.8 + 0.15u, for u in [0, 1); the upper ends are reachable
      after rounding. */
  predicate InRange(d: Draw, unfit: bool) {
    if unfit then 400 <= d.accuracy <= 600 && 20 <= d.r2 <= 50
    else 850 <= d.accuracy <= 950 && 80 <= d.r2 <= 95
  }

  /** One in-range draw for each of `n` models. */
  predicate DrawsFit(draws: seq<Draw>, n: nat, unfit: bool) {
    |draws| == n && forall i :: 0 <= i < n ==> InRange(draws[i], unfit)
  }

  /** The models run when the selection is empty. */
  const Fallback: seq<string> := ["xgboost", "lightgbm", "rf"]

  /** The models to run: the selection, or the fallback when it is empty. */
  function ModelsToRun(selected: seq<string>): (ids: seq<string>)
    ensures |ids| > 0
    ensures (forall id :: id in selected ==> Catalog.IsCatalogId(id)) ==>
              forall id :: id in ids ==> Catalog.IsCatalogId(id)
  {
    Catalog.KnownIds();
    if |selected| == 0 then Fallback else selected
  }

  function StatusFor(unfit: bool): Status {
    if unfit then ConvergedPoorly else Converged
  }

  /** The result row built for one model id from its catalogue entry and its
      draw. The source dereferences the catalogue lookup unconditionally, so
      the id must be a catalogue id. */
  function MakeResult(id: string, unfit: bool, d: Draw): (r: ModelResult)
    requires Catalog.IsCatalogId(id)
    ensures r.id == id && Draw(r.accuracy, r.r2) == d
    ensures InRange(d, unfit) ==> Describes(r, unfit)
  {
    var m := Catalog.Find(id).value;
    ModelResult(id, m.name, m.family, d.accuracy, d.r2, StatusFor(unfit))
  }

  /** The unsorted rows, in the order of the ids. */
  function Build(ids: seq<string>, unfit: bool, draws: seq<Draw>): (rs: seq<ModelResult>)
    requires |draws| == |ids|
    requires forall id :: id in ids ==> Catalog.IsCatalogId(id)
    ensures |rs| == |ids|
    ensures forall i :: 0 <= i < |ids| ==> rs[i].id == ids[i] && Draw(rs[i].accuracy, rs[i].r2) == draws[i]
    ensures DrawsFit(draws, |ids|, unfit) ==> forall i :: 0 <= i < |ids| ==> Describes(rs[i], unfit)
  {
    seq(|ids|, i requires 0 <= i < |ids| => MakeResult(ids[i], unfit, draws[i]))
  }

  /** A row describes its model: the id is a catalogue id, the name and the
      family are the catalogue's, the status follows the fit flag and the
      scores lie in the flag's ranges. */
  predicate Describes(r: ModelResult, unfit: bool) {
    && Catalog.IsCatalogId(r.id)
    && r.name == Catalog.Find(r.id).value.name
    && r.family == Catalog.Find(r.id).value.family
    && r.status == StatusFor(unfit)
    && InRange(Draw(r.accuracy, r.r2), unfit)
  }

  /** `generateResults`: the rows for the models to run, sorted stably by
      accuracy, highest first. */
  function Generate(selected: seq<string>, unfit: bool, draws: seq<Draw>): (rs: seq<ModelResult>)
    requires forall id :: id in selected ==> Catalog.IsCatalogId(id)
    requires DrawsFit(draws, |ModelsToRun(selected)|, unfit)
    ensures |rs| == |ModelsToRun(selected)| > 0
    ensures multiset(Ids(rs)) == multiset(ModelsToRun(selected))
    ensures forall r :: r in rs ==> Describes(r, unfit)
    ensures SortedDesc(rs)
    ensures forall a :: WithAccuracy(rs, a) == WithAccuracy(Build(ModelsToRun(selected), unfit, draws), a)
  {
    var ids := ModelsToRun(selected);
    var built := Build(ids, unfit, draws);
    GenerateFacts(ids, unfit, draws);
    SortDesc(built)
  }

  /** The facts behind `Generate`'s contract, for any list of catalogue ids. */
  lemma GenerateFacts(ids: seq<string>, unfit: bool, draws: seq<Draw>)
    requires forall id :: id in ids ==> Catalog.IsCatalogId(id)
    requires DrawsFit(draws, |ids|, unfit)
    ensures var rs := SortDesc(Build(ids, unfit, draws));
      && multiset(Ids(rs)) == multiset(ids)
      && (forall r :: r in rs ==> Describes(r, unfit))
      && forall a :: WithAccuracy(rs, a) == WithAccuracy(Build(ids, unfit, draws), a)
  {
    var built := Build(ids, unfit, draws);
    SortIsStable(built);
    SortIds(built);
    BuildIds(ids, unfit, draws);
    BuildDescribes(ids, unfit, draws);
    SortKeepsDescribed(built, unfit);
  }

  lemma BuildIds(ids: seq<string>, unfit: bool, draws: seq<Draw>)
    requires forall id :: id in ids ==> Catalog.IsCatalogId(id)
    requires |draws| == |ids|
    ensures Ids(Build(ids, unfit, draws)) == ids
  {
    var built := Build(ids, unfit, draws);
    forall i | 0 <= i < |ids| ensures Ids(built)[i] == ids[i] {
      IdsAt(built, i);
    }
  }

  lemma BuildDescribes(ids: seq<string>, unfit: bool, draws: seq<Draw>)
    requires forall id :: id in ids ==> Catalog.IsCatalogId(id)
    requires DrawsFit(draws, |ids|, unfit)
    ensures forall r :: r in Build(ids, unfit, draws) ==> Describes(r, unfit)
  {
    var built := Build(ids, unfit, draws);
    forall r | r in built ensures Describes(r, unfit) {
      var k :| 0 <= k < |built| && built[k] == r;
      assert InRange(draws[k], unfit);
    }
  }

  lemma SortKeepsDescribed(built: seq<ModelResult>, unfit: bool)
    requires forall r :: r in built ==> Describes(r, unfit)
    ensures forall r :: r in SortDesc(built) ==> Describes(r, unfit)
  {
    SortMembers(built);
  }

  /** The report shown beside the leaderboard. A poorly fit project gets an
      alert quoting the top accuracy; otherwise the top model is praised by
      name, family, accuracy and r2. */
  datatype Analysis =
    | Alert(topAccuracy: int)
    | Excellent(name: string, family: string, accuracy: int, r2: int)

  function Analyze(rs: seq<ModelResult>, unfit: bool): (a: Analysis)
    requires |rs| > 0
    ensures a.Alert? <==> unfit
  {
    if unfit then Alert(rs[0].accuracy)
    else Excellent(rs[0].name, rs[0].family, rs[0].accuracy, rs[0].r2)
  }

  /** On a sorted leaderboard the report speaks of the best model: the
      accuracy it quotes is the highest of all rows and belongs to the first
      row, which is also the row the result view selects. */
  lemma AnalysisQuotesBest(rs: seq<ModelResult>, unfit: bool)
    requires |rs| > 0 && SortedDesc(rs)
    ensures Analyze(rs, unfit).Alert? <==> unfit
    ensures var acc := if unfit then Analyze(rs, unfit).topAccuracy else Analyze(rs, unfit).accuracy;
      acc == rs[0].accuracy && forall i :: 0 <= i < |rs| ==> rs[i].accuracy <= acc
    ensures !unfit ==> Analyze(rs, unfit) == Excellent(rs[0].name, rs[0].family, rs[0].accuracy, rs[0].r2)
  {
    forall i | 0 < i < |rs| ensures rs[i].accuracy <= rs[0].accuracy {
    }
  }

  /** A poorly fit project always ends in an alert: every row converged
      poorly with an accuracy between 40.0% and 60.0%, and the alert quotes
      the first row's accuracy. */
  lemma UnfitReport(selected: seq<string>, draws: seq<Draw>)
    requires forall id :: id in selected ==> Catalog.IsCatalogId(id)
    requires DrawsFit(draws, |ModelsToRun(selected)|, true)
    ensures var rs := Generate(selected, true, draws);
      && (forall r :: r in rs ==> 400 <= r.accuracy <= 600 && r.status == ConvergedPoorly)
      && Analyze(rs, true) == Alert(rs[0].accuracy)
      && 400 <= rs[0].accuracy <= 600
  {
    var rs := Generate(selected, true, draws);
    assert rs[0] in rs;
  }

  /** Were the selection empty, a well fit project would get three rows for
      XGBoost, LightGBM and Random Forest, and a top accuracy of at least
      85.0%. */
  lemma FallbackScenario(draws: seq<Draw>)
    requires DrawsFit(draws, 3, false)
    ensures var rs := Generate([], false, draws);
      |rs| == 3 && multiset(Ids(rs)) == multiset(Fallback) && rs[0].accuracy >= 850
  {
    var rs := Generate([], false, draws);
    assert rs[0] in rs;
  }
}
