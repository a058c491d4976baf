/** The ordering of the leaderboard: `generatedResults.sort((a, b) =>
    b.accuracy - a.accuracy)` (pages/AutoML.tsx:163-164). `Array.prototype.sort`
    is stable (ECMAScript 2019, section 22.1.3.27), so results of equal accuracy
    keep the order in which they were generated. */
module Sorting {

  import opened Rows

  /** Non-increasing by accuracy. */
  predicate SortedDesc(rs: seq<ModelResult>) {
    forall i, j :: 0 <= i < j < |rs| ==> rs[i].accuracy >= rs[j].accuracy
  }

  /** The rows of accuracy `a`, in their order in `rs`. */
  function WithAccuracy(rs: seq<ModelResult>, a: int): seq<ModelResult>
  {
    if |rs| == 0 then []
    else if rs[0].accuracy == a then [rs[0]] + WithAccuracy(rs[1..], a)
    else WithAccuracy(rs[1..], a)
  }

  /** The independent description of a stable descending sort: the output is
      ordered by accuracy and, for every accuracy, lists the rows of that
      accuracy in their input order. (This also makes it a permutation.) */
  ghost predicate IsStableDescSort(input: seq<ModelResult>, output: seq<ModelResult>) {
    && SortedDesc(output)
    && forall a :: WithAccuracy(output, a) == WithAccuracy(input, a)
  }

  /** Inserts `x` into a sorted list after every row of accuracy at least
      its own, so it lands behind the rows it ties with. */
  function Insert(t: seq<ModelResult>, x: ModelResult): (r: seq<ModelResult>)
    ensures |r| == |t| + 1
  {
    if |t| == 0 then [x]
    else if t[0].accuracy < x.accuracy then [x] + t
    else
      assert t == [t[0]] + t[1..];
      [t[0]] + Insert(t[1..], x)
  }

  lemma {:induction false} InsertIds(t: seq<ModelResult>, x: ModelResult)
    ensures multiset(Ids(Insert(t, x))) == multiset(Ids(t)) + multiset{x.id}
  {
    if |t| == 0 {
    } else if t[0].accuracy < x.accuracy {
      IdsCons(x, t);
    } else {
      var rest := Insert(t[1..], x);
      InsertIds(t[1..], x);
      IdsCons(t[0], rest);
      IdsCons(t[0], t[1..]);
      assert t == [t[0]] + t[1..];
      ConsBag(t[0].id, Ids(rest), Ids(t[1..]), x.id);
    }
  }

  lemma ConsBag(h: string, r: seq<string>, t: seq<string>, x: string)
    requires multiset(r) == multiset(t) + multiset{x}
    ensures multiset([h] + r) == multiset([h] + t) + multiset{x}
  {
  }

  lemma IdsCons(x: ModelResult, s: seq<ModelResult>)
    ensures Ids([x] + s) == [x.id] + Ids(s)
  {
    assert ([x] + s)[1..] == s;
  }

  /** Sorting permutes the rows' ids. */
  lemma {:induction false} SortIds(rs: seq<ModelResult>)
    ensures multiset(Ids(SortDesc(rs))) == multiset(Ids(rs))
  {
    if |rs| > 0 {
      var init, last := rs[..|rs| - 1], rs[|rs| - 1];
      var sortedInit := SortDesc(init);
      calc {
        multiset(Ids(SortDesc(rs)));
        { assert SortDesc(rs) == Insert(sortedInit, last); }
        multiset(Ids(Insert(sortedInit, last)));
        { InsertIds(sortedInit, last); }
        multiset(Ids(sortedInit)) + multiset{last.id};
        { SortIds(init); }
        multiset(Ids(init)) + multiset{last.id};
        { assert Ids([last]) == [last.id]; }
        multiset(Ids(init) + Ids([last]));
        { IdsAppend(init, [last]); assert rs == init + [last]; }
        multiset(Ids(rs));
      }
    }
  }

  /** Insertion sort: each row in turn, from the first, is inserted into the
      sorted prefix before it. */
  function SortDesc(rs: seq<ModelResult>): (r: seq<ModelResult>)
    ensures |r| == |rs|
    ensures SortedDesc(r)
  {
    if |rs| == 0 then []
    else
      var t := SortDesc(rs[..|rs| - 1]);
      InsertSorted(t, rs[|rs| - 1]);
      assert rs == rs[..|rs| - 1] + [rs[|rs| - 1]];
      Insert(t, rs[|rs| - 1])
  }

  /** Insertion adds `x` and loses nothing. */
  lemma {:induction false} InsertMembers(t: seq<ModelResult>, x: ModelResult)
    ensures forall y :: y in Insert(t, x) <==> y in t || y == x
  {
    if |t| > 0 && t[0].accuracy >= x.accuracy {
      InsertMembers(t[1..], x);
      assert t == [t[0]] + t[1..];
    }
  }

  /** Sorting keeps exactly the rows it was given. */
  lemma {:induction false} SortMembers(rs: seq<ModelResult>)
    ensures forall y :: y in SortDesc(rs) <==> y in rs
  {
    if |rs| > 0 {
      var init, last := rs[..|rs| - 1], rs[|rs| - 1];
      SortMembers(init);
      SortDescSnoc(init, last);
      InsertMembers(SortDesc(init), last);
      assert rs == init + [last];
    }
  }

  lemma {:induction false} InsertSorted(t: seq<ModelResult>, x: ModelResult)
    requires SortedDesc(t)
    ensures SortedDesc(Insert(t, x))
  {
    if |t| > 0 && t[0].accuracy >= x.accuracy {
      var rest := Insert(t[1..], x);
      SortedTail(t);
      InsertSorted(t[1..], x);
      InsertMembers(t[1..], x);
      forall y | y in rest ensures t[0].accuracy >= y.accuracy {
        if y != x {
          var k :| 0 <= k < |t[1..]| && t[1..][k] == y;
          assert t[k + 1] == y;
        }
      }
      SortedCons(t[0], rest);
    }
  }

  /** A head at least as accurate as every row of a sorted list keeps it sorted. */
  lemma SortedCons(h: ModelResult, rest: seq<ModelResult>)
    requires SortedDesc(rest)
    requires forall y :: y in rest ==> h.accuracy >= y.accuracy
    ensures SortedDesc([h] + rest)
  {
    var r := [h] + rest;
    forall i, j | 0 <= i < j < |r| ensures r[i].accuracy >= r[j].accuracy {
      assert r[j] == rest[j - 1];
      if i > 0 {
        assert r[i] == rest[i - 1];
      }
    }
  }

  lemma SortedTail(t: seq<ModelResult>)
    requires |t| > 0 && SortedDesc(t)
    ensures SortedDesc(t[1..])
  {
    forall i, j | 0 <= i < j < |t| - 1 ensures t[1..][i].accuracy >= t[1..][j].accuracy {
      assert t[1..][i] == t[i + 1] && t[1..][j] == t[j + 1];
    }
  }

  lemma {:induction false} AccuracyAbsent(t: seq<ModelResult>, a: int)
    requires forall i :: 0 <= i < |t| ==> t[i].accuracy != a
    ensures WithAccuracy(t, a) == []
  {
    if |t| > 0 {
      AccuracyAbsent(t[1..], a);
    }
  }

  lemma {:induction false} WithAccuracyAppend(s: seq<ModelResult>, t: seq<ModelResult>, a: int)
    ensures WithAccuracy(s + t, a) == WithAccuracy(s, a) + WithAccuracy(t, a)
  {
    if |s| == 0 {
      assert s + t == t;
    } else {
      var st := s + t;
      var h := if s[0].accuracy == a then [s[0]] else [];
      assert st[0] == s[0];
      assert st[1..] == s[1..] + t;
      WithAccuracyAppend(s[1..], t, a);
      calc {
        WithAccuracy(st, a);
        h + WithAccuracy(st[1..], a);
        h + (WithAccuracy(s[1..], a) + WithAccuracy(t, a));
        (h + WithAccuracy(s[1..], a)) + WithAccuracy(t, a);
        WithAccuracy(s, a) + WithAccuracy(t, a);
      }
    }
  }

  /** Insertion adds `x` behind every row of its own accuracy and leaves the
      order of all other rows alone. */
  lemma {:induction false} InsertStable(t: seq<ModelResult>, x: ModelResult, a: int)
    requires SortedDesc(t)
    ensures WithAccuracy(Insert(t, x), a) == WithAccuracy(t, a) + (if x.accuracy == a then [x] else [])
  {
    if |t| == 0 {
      assert Insert(t, x) == [x];
      assert [x][1..] == [];
    } else if t[0].accuracy < x.accuracy {
      InsertInFront(t, x, a);
    } else {
      SortedTail(t);
      InsertStable(t[1..], x, a);
      InsertBehindHead(t, x, a);
    }
  }

  /** `x` goes in front of a list whose rows are all below it; none of them
      shares its accuracy. */
  lemma InsertInFront(t: seq<ModelResult>, x: ModelResult, a: int)
    requires SortedDesc(t) && |t| > 0 && t[0].accuracy < x.accuracy
    ensures WithAccuracy(Insert(t, x), a) == WithAccuracy(t, a) + (if x.accuracy == a then [x] else [])
  {
    var r := Insert(t, x);
    assert r == [x] + t;
    assert r[1..] == t;
    if x.accuracy == a {
      assert forall i :: 0 <= i < |t| ==> t[i].accuracy <= t[0].accuracy;
      AccuracyAbsent(t, a);
    }
  }

  /** `x` goes behind the head: the head's class gains nothing in front. */
  lemma InsertBehindHead(t: seq<ModelResult>, x: ModelResult, a: int)
    requires |t| > 0 && t[0].accuracy >= x.accuracy
    requires WithAccuracy(Insert(t[1..], x), a)
      == WithAccuracy(t[1..], a) + (if x.accuracy == a then [x] else [])
    ensures WithAccuracy(Insert(t, x), a) == WithAccuracy(t, a) + (if x.accuracy == a then [x] else [])
  {
    var rest := Insert(t[1..], x);
    var tail := if x.accuracy == a then [x] else [];
    assert Insert(t, x) == [t[0]] + rest;
    assert t == [t[0]] + t[1..];
    WithAccuracyCons(t[0], rest, a);
    WithAccuracyCons(t[0], t[1..], a);
    if t[0].accuracy == a {
      assert [t[0]] + (WithAccuracy(t[1..], a) + tail) == ([t[0]] + WithAccuracy(t[1..], a)) + tail;
    }
  }

  /** The insertion sort is a stable descending sort. */
  lemma {:induction false} SortIsStable(rs: seq<ModelResult>)
    ensures IsStableDescSort(rs, SortDesc(rs))
  {
    if |rs| > 0 {
      var init, last := rs[..|rs| - 1], rs[|rs| - 1];
      SortIsStable(init);
      assert rs == init + [last];
      forall a ensures WithAccuracy(SortDesc(rs), a) == WithAccuracy(rs, a) {
        SortStep(init, last, a);
      }
    }
  }

  lemma WithAccuracySingleton(x: ModelResult, a: int)
    ensures WithAccuracy([x], a) == if x.accuracy == a then [x] else []
  {
    assert [x][1..] == [];
  }

  lemma WithAccuracyCons(x: ModelResult, s: seq<ModelResult>, a: int)
    ensures WithAccuracy([x] + s, a) == if x.accuracy == a then [x] + WithAccuracy(s, a) else WithAccuracy(s, a)
  {
    assert ([x] + s)[1..] == s;
  }

  lemma SortDescSnoc(init: seq<ModelResult>, last: ModelResult)
    ensures SortDesc(init + [last]) == Insert(SortDesc(init), last)
  {
    assert (init + [last])[..|init|] == init;
  }

  /** One step of the sort keeps every accuracy class in input order. */
  lemma SortStep(init: seq<ModelResult>, last: ModelResult, a: int)
    requires WithAccuracy(SortDesc(init), a) == WithAccuracy(init, a)
    ensures WithAccuracy(SortDesc(init + [last]), a) == WithAccuracy(init + [last], a)
  {
    var rs := init + [last];
    var sortedInit := SortDesc(init);
    SortDescSnoc(init, last);
    var x := if last.accuracy == a then [last] else [];
    calc {
      WithAccuracy(Insert(sortedInit, last), a);
      { InsertStable(sortedInit, last, a); }
      WithAccuracy(sortedInit, a) + x;
      WithAccuracy(init, a) + x;
      { WithAccuracySingleton(last, a); }
      WithAccuracy(init, a) + WithAccuracy([last], a);
      { WithAccuracyAppend(init, [last], a); }
      WithAccuracy(rs, a);
    }
  }

  /** Two lists that are both sorted and agree on every accuracy class are
      equal: a stable descending sort has exactly one possible output. */
  lemma {:induction false} StableSortUnique(o1: seq<ModelResult>, o2: seq<ModelResult>)
    requires SortedDesc(o1) && SortedDesc(o2)
    requires forall a :: WithAccuracy(o1, a) == WithAccuracy(o2, a)
    ensures o1 == o2
    decreases |o1|
  {
    if |o1| == 0 || |o2| == 0 {
      if |o1| > 0 {
        AccuracyAbsent(o2, o1[0].accuracy);
      } else if |o2| > 0 {
        AccuracyAbsent(o1, o2[0].accuracy);
      }
    } else {
      var a1, a2 := o1[0].accuracy, o2[0].accuracy;
      if a2 < a1 {
        AccuracyAbsent(o2, a1);
      } else if a1 < a2 {
        AccuracyAbsent(o1, a2);
      }
      assert a1 == a2;
      assert o1[0] == WithAccuracy(o1, a1)[0] == WithAccuracy(o2, a1)[0] == o2[0];
      forall a ensures WithAccuracy(o1[1..], a) == WithAccuracy(o2[1..], a) {
        var h := if a1 == a then [o1[0]] else [];
        var w1, w2 := WithAccuracy(o1[1..], a), WithAccuracy(o2[1..], a);
        assert WithAccuracy(o1, a) == h + w1;
        assert WithAccuracy(o2, a) == h + w2;
        assert w1 == (h + w1)[|h|..];
        assert w2 == (h + w2)[|h|..];
      }
      StableSortUnique(o1[1..], o2[1..]);
      assert o1 == [o1[0]] + o1[1..];
      assert o2 == [o2[0]] + o2[1..];
    }
  }

  /** `SortDesc` is the one stable descending order of its input. */
  lemma SortDescIsTheStableSort(rs: seq<ModelResult>, output: seq<ModelResult>)
    requires IsStableDescSort(rs, output)
    ensures output == SortDesc(rs)
  {
    SortIsStable(rs);
    StableSortUnique(output, SortDesc(rs));
  }
}
