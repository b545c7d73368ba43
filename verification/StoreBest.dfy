/** A beam of one keeps a best proposal: any of them, as sorting may break ties. */
module StoreBest {
  import opened Candidates
  import opened BeamStore
  import opened StoreMethods
  import Sorting

  lemma {:induction false} SortExists(s: seq<Node>) returns (r: seq<Node>)
    ensures multiset(r) == multiset(s) && Sorted(r)
  {
    hide Above;
    r := [];
    if s != [] {
      var n := |s| - 1;
      var before := SortExists(s[..n]);
      assert s == s[..n] + [s[n]];
      var k := |before|;
      while k > 0 && Above(s[n], before[k - 1])
        invariant 0 <= k <= |before| && forall j :: k <= j < |before| ==> Above(s[n], before[j])
      {
        k := k - 1;
      }
      InsertSorted(before, k, s[n]);
      assert before == before[..k] + before[k..];
      r := before[..k] + [s[n]] + before[k..];
    }
  }

  /** x is the first of its key. */
  predicate FirstOfKey(s: seq<Node>, k: int, x: Node) {
    0 <= k < |s| && s[k] == x && (k > 0 ==> !SameKey(s[k - 1], x))
  }

  lemma PlaceFirst(r: seq<Node>, k: int, x: Node)
    requires Sorted(r) && 0 <= k <= |r| && (forall j :: 0 <= j < |r| && SameKey(r[j], x) ==> r[j].score <= x.score)
    requires (forall j :: 0 <= j < k ==> KeyAbove(r[j], x)) && (k < |r| ==> !KeyAbove(r[k], x))
    ensures Sorted(r[..k] + [x] + r[k..]) && FirstOfKey(r[..k] + [x] + r[k..], k, x)
  {
    hide KeyAbove;
    var s := r[..k] + [x] + r[k..];
    forall i, j | 0 <= i < j < |s| ensures !Above(s[j], s[i]) {
      if j == k {
        KeyOrder(r[i], x, x);
      } else if i == k {
        NotAboveFirst(r, k, j - 1, x);
      } else {
        assert s[j] == r[if j < k then j else j - 1] && s[i] == r[if i < k then i else i - 1];
      }
    }
    if k > 0 { KeyOrder(r[k - 1], x, x); }
  }

  lemma NotAboveFirst(r: seq<Node>, k: int, j: int, x: Node)
    requires Sorted(r) && 0 <= k <= j < |r| && !KeyAbove(r[k], x)
    requires SameKey(r[j], x) ==> r[j].score <= x.score
    ensures !Above(r[j], x)
  {
    hide KeyAbove;
    assert j > k ==> !Above(r[j], r[k]);
    KeyOrder(r[j], r[k], x);
    KeyOrder(r[k], x, r[j]);
    KeyOrder(r[k], r[j], x);
    KeyOrder(r[j], x, r[k]);
    KeyOrder(x, r[k], r[j]);
  }

  /** Some sorted arrangement has x first among its key. */
  lemma SortFirst(s: seq<Node>, i: int) returns (order: seq<Node>, k: int)
    requires 0 <= i < |s| && forall j :: 0 <= j < |s| ==> s[j].score <= s[i].score
    ensures multiset(order) == multiset(s) && Sorted(order) && FirstOfKey(order, k, s[i])
  {
    hide KeyAbove, Sorted;
    var rest, x := s[..i] + s[i + 1..], s[i];
    RemoveMultiset(s, i);
    var r := SortExists(rest);
    forall j | 0 <= j < |r| ensures r[j].score <= x.score {
      assert r[j] in multiset(rest);
      assert r[j] in rest;
    }
    k := 0;
    while k < |r| && KeyAbove(r[k], x)
      invariant 0 <= k <= |r| && forall j :: 0 <= j < k ==> KeyAbove(r[j], x)
    {
      k := k + 1;
    }
    PlaceFirst(r, k, x);
    Sorting.InsertMultiset(r, k, x);
    order := r[..k] + [x] + r[k..];
    assert x in multiset(s);
  }

  /** Merging keeps the first record of a key. */
  lemma {:induction false} FirstIsMerged(order: seq<Node>, k: int, n: nat)
    requires Sorted(order) && 0 <= k < n <= |order| && FirstOfKey(order, k, order[k])
    requires forall j :: 0 <= j < |order| ==> order[j].score <= order[k].score
    ensures order[k] in MergeAdjacent(TakeMax, order[..n])
    decreases n
  {
    hide Sorted, MergeAdjacent;
    var x := order[k];
    if n == 1 {
      assert order[..1] == [x];
      MergeSingle(TakeMax, order[..1]);
    } else {
      var before, y := order[..n - 1], order[n - 1];
      assert order[..n] == before + [y];
      MergeUnfold(TakeMax, before, y);
      var r := MergeAdjacent(TakeMax, before);
      if k == n - 1 {
        MergeLast(before, order);
      } else {
        FirstIsMerged(order, k, n - 1);
        MergeOneKeeps(r, y, x);
      }
    }
  }

  lemma MergeLast(before: seq<Node>, order: seq<Node>)
    requires before != [] && before <= order && Sorted(order)
    ensures var r := MergeAdjacent(TakeMax, before); r != [] && SameKey(r[|r| - 1], before[|before| - 1])
  {
    hide MergeAdjacent, Falling, Keys, Tops;
    assert Sorted(before);
    hide Sorted;
    MergeRuns(TakeMax, before);
  }

  lemma MergeOneKeeps(r: seq<Node>, y: Node, x: Node)
    requires r != [] && x in r && y.score <= x.score
    ensures x in MergeOne(TakeMax, r, y)
  {
    var i :| 0 <= i < |r| && r[i] == x;
    assert MergeOne(TakeMax, r, y)[i] == x;
  }

  /** A proposal no other beats may be the one stored. */
  lemma BestMayBeStored(threshold: real, proposals: seq<Node>, x: Node)
    requires threshold >= 0.0 && x in proposals && forall y :: y in proposals ==> y.score <= x.score
    ensures Stored(TakeMax, 1, threshold, proposals, false, [x])
  {
    hide AtLeast, MergeAdjacent, Sorted, Survivors, FirstOfKey;
    IsBestOf(proposals, x);
    SurvivorsExact(proposals, threshold, x.score);
    AtLeastMember(proposals, x.score - threshold, x);
    var survivors := Survivors(proposals, threshold);
    var i :| 0 <= i < |survivors| && survivors[i] == x;
    forall j | 0 <= j < |survivors| ensures survivors[j].score <= x.score {
      SurvivorMember(proposals, threshold, survivors[j]);
    }
    var order, k := SortFirst(survivors, i);
    OrderScores(order, survivors, x.score);
    FirstMerged(order, k, x);
    MergedScores(order, x.score);
    var merged := MergeAdjacent(TakeMax, order);
    var top := TopWith(merged, x);
    assert StoredVia(TakeMax, 1, survivors, false, order, top, [x]);
  }

  lemma IsBestOf(s: seq<Node>, x: Node)
    requires x in s && forall y :: y in s ==> y.score <= x.score
    ensures IsBest(s, x.score)
  {
    var i :| 0 <= i < |s| && s[i] == x;
    assert s[i].score == x.score;
  }

  lemma OrderScores(order: seq<Node>, survivors: seq<Node>, best: real)
    requires multiset(order) == multiset(survivors) && forall j :: 0 <= j < |survivors| ==> survivors[j].score <= best
    ensures forall j :: 0 <= j < |order| ==> order[j].score <= best
  {
    forall j | 0 <= j < |order| ensures order[j].score <= best { MultisetMember(order, survivors, order[j]); }
  }

  lemma FirstMerged(order: seq<Node>, k: int, x: Node)
    requires Sorted(order) && FirstOfKey(order, k, x) && forall j :: 0 <= j < |order| ==> order[j].score <= x.score
    ensures x in MergeAdjacent(TakeMax, order)
  {
    hide Sorted, MergeAdjacent;
    FirstIsMerged(order, k, |order|);
    assert order[..|order|] == order;
  }

  lemma MergedScores(order: seq<Node>, best: real)
    requires order != [] && Sorted(order) && forall j :: 0 <= j < |order| ==> order[j].score <= best
    ensures forall j :: 0 <= j < |MergeAdjacent(TakeMax, order)| ==> MergeAdjacent(TakeMax, order)[j].score <= best
  {
    hide Sorted, MergeAdjacent, Keys, DistinctKeys;
    MergeMeaning(TakeMax, order);
  }

  /** merged[i] moved to the front. */
  function Front(merged: seq<Node>, i: int): (top: seq<Node>)
    requires 0 <= i < |merged|
    ensures |top| == |merged| && top[0] == merged[i]
  {
    [merged[i]] + (merged[..i] + merged[i + 1..])
  }

  lemma FrontMultiset(merged: seq<Node>, i: int)
    requires 0 <= i < |merged|
    ensures multiset(Front(merged, i)) == multiset(merged)
  {
    var a, b, x := merged[..i], merged[i + 1..], merged[i];
    assert merged == a + [x] + b;
    assert multiset(merged) == multiset(a) + multiset{x} + multiset(b);
    assert multiset(Front(merged, i)) == multiset{x} + (multiset(a) + multiset(b));
  }

  lemma FrontAbove(merged: seq<Node>, i: int, j: int)
    requires 0 <= i < |merged| && 0 <= j < |merged|
    requires forall k :: 0 <= k < |merged| ==> merged[k].score <= merged[i].score
    ensures Front(merged, i)[j].score <= merged[i].score
  {
  }

  lemma TopWith(merged: seq<Node>, x: Node) returns (top: seq<Node>)
    requires x in merged && forall j :: 0 <= j < |merged| ==> merged[j].score <= x.score
    ensures TopVia(merged, 1, false, top, [x])
  {
    hide Front;
    var i :| 0 <= i < |merged| && merged[i] == x;
    if |merged| == 1 {
      top := merged;
    } else {
      top := Front(merged, i);
      FrontMultiset(merged, i);
      forall j | 0 <= j < |top| ensures top[j].score <= x.score { FrontAbove(merged, i, j); }
    }
    assert top[..1] == [x];
  }
}
