/** The fixed catalogue of models the wizard offers (pages/AutoML.tsx:12-18). */
module Catalog {
  import opened Wrappers

  /** One catalogue entry: its id, display name, algorithm family and whether
      the selection view badges it as recommended. */
  datatype ModelChoice = ModelChoice(id: string, name: string, family: string, recommended: bool)

  const Models: seq<ModelChoice> := [
    ModelChoice("xgboost", "XGBoost", "Ensemble", true),
    ModelChoice("lightgbm", "LightGBM", "Ensemble", true),
    ModelChoice("rf", "Random Forest", "Bagging", false),
    ModelChoice("linear", "Linear Regression", "Linear", false),
    ModelChoice("mlp", "MLP Neural Net", "Deep Learning", false)
  ]

  /** The ids of a list of entries, in order. */
  function Ids(ms: seq<ModelChoice>): (ids: seq<string>)
    ensures |ids| == |ms|
    ensures forall i :: 0 <= i < |ms| ==> ids[i] == ms[i].id
  {
    if |ms| == 0 then [] else [ms[0].id] + Ids(ms[1..])
  }

  predicate IsCatalogId(id: string) {
    id in Ids(Models)
  }

  /** Position `k` holds the first entry of `ms` whose id is `id`. */
  predicate FirstWithId(ms: seq<ModelChoice>, id: string, k: int) {
    0 <= k < |ms| && ms[k].id == id && forall j :: 0 <= j < k ==> ms[j].id != id
  }

  /** `Array.prototype.find` on the id: the first entry of `ms` whose id is `id`. */
  function FindIn(ms: seq<ModelChoice>, id: string): (r: Option<ModelChoice>)
    ensures r.Some? <==> id in Ids(ms)
    ensures r.Some? ==> exists k :: FirstWithId(ms, id, k) && ms[k] == r.value
  {
    if |ms| == 0 then None
    else if ms[0].id == id then
      assert FirstWithId(ms, id, 0);
      Some(ms[0])
    else
      var r := FindIn(ms[1..], id);
      FirstWithIdShift(ms, id, r);
      r
  }

  /** A first match in the tail is a first match in the whole list when the
      head does not match. */
  lemma FirstWithIdShift(ms: seq<ModelChoice>, id: string, r: Option<ModelChoice>)
    requires |ms| > 0 && ms[0].id != id
    requires r.Some? ==> exists k :: FirstWithId(ms[1..], id, k) && ms[1..][k] == r.value
    ensures r.Some? ==> exists k :: FirstWithId(ms, id, k) && ms[k] == r.value
  {
    if r.Some? {
      var k :| FirstWithId(ms[1..], id, k) && ms[1..][k] == r.value;
      forall j | 0 <= j < k + 1 ensures ms[j].id != id {
        if j > 0 {
          assert ms[j] == ms[1..][j - 1];
        }
      }
      assert FirstWithId(ms, id, k + 1) && ms[k + 1] == r.value;
    }
  }

  /** The catalogue lookup of the result generator; it finds an entry exactly
      for the five catalogue ids. */
  function Find(id: string): (r: Option<ModelChoice>)
    ensures r.Some? <==> IsCatalogId(id)
    ensures r.Some? ==> r.value in Models && r.value.id == id
  {
    FindIn(Models, id)
  }

  /** Each of the five ids the catalogue lists is recognised by the lookup. */
  lemma KnownIds()
    ensures IsCatalogId("xgboost") && IsCatalogId("lightgbm") && IsCatalogId("rf")
    ensures IsCatalogId("linear") && IsCatalogId("mlp")
  {
  }
}
