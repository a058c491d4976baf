/** The leaderboard row (pages/AutoML.tsx:20-27), shared by the ordering
    of the leaderboard and the generation of its rows. */
module Rows {

  /** Whether a result is well-fit or poorly fit. */
  datatype Status = Converged | ConvergedPoorly

  /** One leaderboard row. Accuracy is in tenths of a percent and r2 in
      hundredths, the precisions `toFixed(1)` and `toFixed(2)` keep. */
  datatype ModelResult = ModelResult(id: string, name: string, family: string,
                                     accuracy: int, r2: int, status: Status)

  /** The ids of the rows, in order. */
  function Ids(rs: seq<ModelResult>): (ids: seq<string>)
    ensures |ids| == |rs|
  {
    if |rs| == 0 then [] else [rs[0].id] + Ids(rs[1..])
  }

  /** Position `i` of the ids is the id of row `i`. Kept out of the contract
      of `Ids` so that the many proofs mentioning `Ids` do not carry it. */
  lemma {:induction false} IdsAt(rs: seq<ModelResult>, i: nat)
    requires i < |rs|
    ensures Ids(rs)[i] == rs[i].id
  {
    if i > 0 {
      IdsAt(rs[1..], i - 1);
    }
  }

  lemma {:induction false} IdsAppend(a: seq<ModelResult>, b: seq<ModelResult>)
    ensures Ids(a + b) == Ids(a) + Ids(b)
  {
    if |a| == 0 {
      assert a + b == b;
    } else {
      var ab := a + b;
      assert ab[0] == a[0];
      assert ab[1..] == a[1..] + b;
      IdsAppend(a[1..], b);
      calc {
        Ids(ab);
        [a[0].id] + Ids(a[1..] + b);
        [a[0].id] + (Ids(a[1..]) + Ids(b));
        ([a[0].id] + Ids(a[1..])) + Ids(b);
        Ids(a) + Ids(b);
      }
    }
  }
}
