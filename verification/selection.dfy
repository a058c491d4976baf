/** The model selection list and its toggle (pages/AutoML.tsx:54 and 94-98). */
module Selection {

  /** `prev.filter(m => m !== id)`: every occurrence of `id` dropped, the rest
      kept in order. */
  function RemoveAll(xs: seq<string>, id: string): (r: seq<string>)
    ensures id !in r
    ensures forall x :: x != id ==> multiset(r)[x] == multiset(xs)[x]
    ensures IsSubsequence(r, xs)
    ensures forall x :: x != id ==> (x in r <==> x in xs)
  {
    if |xs| == 0 then []
    else
      var rest := RemoveAll(xs[1..], id);
      assert xs == [xs[0]] + xs[1..];
      if xs[0] == id then
        SubsequenceOfTail(rest, xs);
        rest
      else
        assert ([xs[0]] + rest)[1..] == rest;
        [xs[0]] + rest
  }

  /** `a` is obtained from `b` by deleting elements, keeping the order. */
  ghost predicate IsSubsequence(a: seq<string>, b: seq<string>)
    decreases |b|
  {
    if |a| == 0 then true
    else if |b| == 0 then false
    else if a[0] == b[0] then IsSubsequence(a[1..], b[1..])
    else IsSubsequence(a, b[1..])
  }

  /** A subsequence of the tail is a subsequence of the whole. */
  lemma SubsequenceOfTail(a: seq<string>, b: seq<string>)
    requires |b| > 0 && IsSubsequence(a, b[1..])
    ensures IsSubsequence(a, b)
    decreases |a| + |b|
  {
    if |a| > 0 && a[0] == b[0] {
      SubsequenceWeaken(a, b[1..]);
    }
  }

  /** Dropping the head of `a` keeps it a subsequence. */
  lemma SubsequenceWeaken(a: seq<string>, b: seq<string>)
    requires |a| > 0 && IsSubsequence(a, b)
    ensures IsSubsequence(a[1..], b)
    decreases |a| + |b|
  {
    if a[0] != b[0] {
      SubsequenceWeaken(a, b[1..]);
    }
    SubsequenceOfTail(a[1..], b);
  }

  /** `toggleModel`: a present id is removed (all of its occurrences), an
      absent one is appended. No catalogue check is made. */
  function Toggle(xs: seq<string>, id: string): (r: seq<string>)
    ensures id in r <==> id !in xs
    ensures forall x :: x != id ==> (x in r <==> x in xs)
  {
    if id in xs then RemoveAll(xs, id) else xs + [id]
  }

  predicate Distinct(xs: seq<string>) {
    forall i, j :: 0 <= i < j < |xs| ==> xs[i] != xs[j]
  }

  lemma DistinctPair(a: string, b: string)
    requires a != b
    ensures Distinct([a, b])
  {
  }

  /** Toggling a present id removes it and only it, keeping every other id
      with its multiplicity and the relative order; toggling an absent id
      appends it, whether or not it is a catalogue id. */
  lemma ToggleEffect(xs: seq<string>, id: string)
    ensures id in xs ==> id !in Toggle(xs, id)
    ensures id in xs ==> forall x :: x != id ==> multiset(Toggle(xs, id))[x] == multiset(xs)[x]
    ensures id in xs ==> IsSubsequence(Toggle(xs, id), xs)
    ensures id !in xs ==> Toggle(xs, id) == xs + [id]
    ensures id in Toggle(xs, id) <==> id !in xs
  {
  }

  /** Filtering out an id that does not occur is the identity. */
  lemma {:induction false} RemoveAbsent(xs: seq<string>, id: string)
    requires id !in xs
    ensures RemoveAll(xs, id) == xs
  {
    if |xs| > 0 {
      RemoveAbsent(xs[1..], id);
      assert xs == [xs[0]] + xs[1..];
    }
  }

  /** Filtering distributes over concatenation. */
  lemma {:induction false} RemoveAppend(xs: seq<string>, ys: seq<string>, id: string)
    ensures RemoveAll(xs + ys, id) == RemoveAll(xs, id) + RemoveAll(ys, id)
  {
    if |xs| > 0 {
      RemoveAppend(xs[1..], ys, id);
      assert (xs + ys)[1..] == xs[1..] + ys;
    } else {
      assert xs + ys == ys;
    }
  }

  /** Toggling an absent id twice gives back the original list exactly. */
  lemma ToggleTwiceAbsent(xs: seq<string>, id: string)
    requires id !in xs
    ensures Toggle(Toggle(xs, id), id) == xs
  {
    RemoveAppend(xs, [id], id);
    RemoveAbsent(xs, id);
    assert RemoveAll([id], id) == [];
  }

  /** Toggling a present id twice does not restore the list: the id comes
      back once, at the end. */
  lemma ToggleTwicePresent(xs: seq<string>, id: string)
    requires id in xs
    ensures Toggle(Toggle(xs, id), id) == RemoveAll(xs, id) + [id]
  {
  }

  /** A list without repeats keeps that property under toggling. */
  lemma ToggleKeepsDistinct(xs: seq<string>, id: string)
    requires Distinct(xs)
    ensures Distinct(Toggle(xs, id))
  {
    if id in xs {
      DistinctSubsequence(RemoveAll(xs, id), xs);
    }
  }

  /** Every element of a subsequence occurs in the whole. */
  lemma SubsequenceMembers(a: seq<string>, b: seq<string>)
    requires IsSubsequence(a, b)
    ensures forall x :: x in a ==> x in b
    decreases |b|
  {
    if |a| > 0 && |b| > 0 {
      if a[0] == b[0] {
        SubsequenceMembers(a[1..], b[1..]);
        assert forall x :: x in a ==> x == a[0] || x in a[1..];
      } else {
        SubsequenceMembers(a, b[1..]);
      }
    }
  }

  lemma DistinctSubsequence(a: seq<string>, b: seq<string>)
    requires IsSubsequence(a, b) && Distinct(b)
    ensures Distinct(a)
    decreases |b|
  {
    if |a| > 0 && |b| > 0 {
      if a[0] == b[0] {
        DistinctSubsequence(a[1..], b[1..]);
        SubsequenceMembers(a[1..], b[1..]);
        assert a[0] !in b[1..];
        forall i, j | 0 <= i < j < |a| ensures a[i] != a[j] {
          if i > 0 {
            assert a[i] == a[1..][i - 1] && a[j] == a[1..][j - 1];
          } else {
            assert a[j] in a[1..];
          }
        }
      } else {
        DistinctSubsequence(a, b[1..]);
      }
    }
  }

  /** The membership set changes by exactly the toggled id. */
  lemma ToggleMembers(xs: seq<string>, id: string)
    ensures forall x :: x != id ==> (x in Toggle(xs, id) <==> x in xs)
  {
    forall x | x != id ensures x in Toggle(xs, id) <==> x in xs {
      if id in xs {
        assert x in Toggle(xs, id) <==> multiset(Toggle(xs, id))[x] > 0;
        assert x in xs <==> multiset(xs)[x] > 0;
      }
    }
  }
}
