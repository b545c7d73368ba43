/** The steps of `candidatesStore` as code. */
module StoreMethods {
  import opened Wrappers
  import opened Candidates
  import opened BeamStore
  import Sorting

  /** Raises the running best, and says whether the score is within the threshold of it. */
  method IsValidCandidate(bestScore: Option<real>, score: real, threshold: real)
    returns (best: Option<real>, valid: bool)
    ensures best.Some? && best.value >= score && (bestScore.Some? ==> best.value >= bestScore.value)
    ensures best.value == score || best == bestScore
    ensures valid <==> score >= best.value - threshold
  {
    best := bestScore;
    if bestScore.None? || score >= bestScore.value { best := Some(score); }
    valid := score >= best.value - threshold;
  }

  /** The final filter: candidates that score at least the threshold. */
  method PruneCandidates(candidates: seq<Node>, threshold: real) returns (kept: seq<Node>)
    ensures kept == AtLeast(candidates, threshold)
  {
    kept := [];
    for i := 0 to |candidates|
      invariant kept == AtLeast(candidates[..i], threshold)
    {
      AtLeastSnoc(candidates[..i], candidates[i], threshold);
      assert candidates[..i + 1] == candidates[..i] + [candidates[i]];
      if candidates[i].score >= threshold { kept := kept + [candidates[i]]; }
    }
    assert candidates[..|candidates|] == candidates;
  }

  lemma NotAboveTransitive(a: Node, b: Node, c: Node)
    requires !Above(a, b) && !Above(b, c)
    ensures !Above(a, c)
  {
    hide KeyAbove;
    KeyOrder(a, b, c);
    KeyOrder(b, c, a);
    KeyOrder(a, c, b);
    KeyOrder(c, a, b);
    KeyOrder(c, b, a);
  }

  lemma AboveAsymmetric(a: Node, b: Node)
    requires Above(a, b)
    ensures !Above(b, a)
  {
  }

  lemma InsertSorted(r: seq<Node>, k: int, x: Node)
    requires Sorted(r) && 0 <= k <= |r|
    requires k > 0 ==> !Above(x, r[k - 1])
    requires forall j :: k <= j < |r| ==> Above(x, r[j])
    ensures Sorted(r[..k] + [x] + r[k..])
  {
    hide Above;
    var s := r[..k] + [x] + r[k..];
    forall i, j | 0 <= i < j < |s| ensures !Above(s[j], s[i]) {
      if j == k {
        if i < k - 1 { assert !Above(r[k - 1], r[i]); NotAboveTransitive(x, r[k - 1], r[i]); }
      } else if i == k {
        AboveAsymmetric(x, r[j - 1]);
      } else {
        assert s[j] == r[if j < k then j else j - 1] && s[i] == r[if i < k then i else i - 1];
      }
    }
  }

  /** `std::sort` by key, then score: only its contract is used. */
  method SortCandidates(s: seq<Node>) returns (r: seq<Node>)
    ensures multiset(r) == multiset(s) && Sorted(r)
  {
    hide Above;
    r := [];
    for i := 0 to |s|
      invariant multiset(r) == multiset(s[..i]) && Sorted(r)
    {
      var x, k := s[i], |r|;
      while k > 0 && Above(x, r[k - 1])
        invariant 0 <= k <= |r| && forall j :: k <= j < |r| ==> Above(x, r[j])
      {
        k := k - 1;
      }
      InsertSorted(r, k, x);
      Sorting.InsertMultiset(r, k, x);
      assert s[..i + 1] == s[..i] + [x];
      r := r[..k] + [x] + r[k..];
    }
    assert s[..|s|] == s;
  }

  /** Merge neighbours with the same key in place; the result is the first n. */
  method MergeCandidates(merge: Merge, ptrs: array<Node>) returns (n: nat)
    requires ptrs.Length > 0
    modifies ptrs
    ensures n <= ptrs.Length && ptrs[..n] == MergeAdjacent(merge, old(ptrs[..]))
  {
    hide Combine, MergeAdjacent, MergeOne, SameKey;
    ghost var s := ptrs[..];
    n := 1;
    assert ptrs[..1] == s[..1];
    MergeSingle(merge, s[..1]);
    for i := 1 to ptrs.Length
      invariant 1 <= n <= i && ptrs[..n] == MergeAdjacent(merge, s[..i])
      invariant forall k :: i <= k < ptrs.Length ==> ptrs[k] == s[k]
    {
      MergeUnfold(merge, s[..i], s[i]);
      assert s[..i + 1] == s[..i] + [s[i]];
      ghost var r := ptrs[..n];
      MergeCases(merge, r, s[i]);
      if !SameKey(ptrs[n - 1], ptrs[i]) {
        ptrs[n] := ptrs[i];
        n := n + 1;
        assert ptrs[..n] == r + [s[i]];
      } else {
        var score := Combine(merge, ptrs[n - 1].score, ptrs[i].score);
        ptrs[n - 1] := ptrs[n - 1].(score := score);
        assert ptrs[..n] == r[n - 1 := r[n - 1].(score := score)];
      }
    }
    assert s[..ptrs.Length] == s;
  }

  lemma MergeCases(merge: Merge, r: seq<Node>, x: Node)
    requires r != []
    ensures var k := |r| - 1;
      MergeOne(merge, r, x)
      == if SameKey(r[k], x) then r[k := r[k].(score := Combine(merge, r[k].score, x.score))] else r + [x]
  {
    hide Combine;
  }

  lemma MergeSingle(merge: Merge, s: seq<Node>)
    requires |s| == 1
    ensures MergeAdjacent(merge, s) == s
  {
  }

  /** The best K: all of them as they are when they fit and no order is asked for. */
  method StoreTopCandidates(merged: seq<Node>, K: nat, returnSorted: bool) returns (out: seq<Node>)
    ensures exists top :: TopVia(merged, K, returnSorted, top, out)
  {
    var top := merged;
    if returnSorted || |merged| > K {
      var key := (x: Node) => x.score;
      top := Sorting.SortByKey(merged, key);
      assert forall i :: 0 <= i < |top| ==> key(top[i]) == top[i].score;
    }
    out := top[..Min(|merged|, K)];
    assert TopVia(merged, K, returnSorted, top, out);
  }

  /** `candidatesStore`: filter, sort, merge, keep the best K. */
  method CandidatesStore(merge: Merge, K: nat, threshold: real, ghost proposals: seq<Node>, added: Added,
                         returnSorted: bool)
    returns (out: seq<Node>)
    requires added == AddAll(proposals, threshold)
    ensures Stored(merge, K, threshold, proposals, returnSorted, out)
  {
    hide AddAll, AtLeast, Sorted, MergeAdjacent, TopVia;
    AddAllBest(proposals, threshold);
    KeptNonEmpty(proposals, threshold);
    if added.kept == [] { return []; }
    var survivors := PruneCandidates(added.kept, added.best.value - threshold);
    var order := SortCandidates(survivors);
    NonEmptyOrder(order, survivors);
    var ptrs := new Node[|order|](i requires 0 <= i < |order| => order[i]);
    assert ptrs[..] == order;
    var n := MergeCandidates(merge, ptrs);
    out := StoreTopCandidates(ptrs[..n], K, returnSorted);
    ghost var top :| TopVia(ptrs[..n], K, returnSorted, top, out);
    assert StoredVia(merge, K, survivors, returnSorted, order, top, out);
  }

  /** The early exit on no candidates and an empty result of the filter agree. */
  lemma KeptNonEmpty(proposals: seq<Node>, threshold: real)
    ensures AddAll(proposals, threshold).kept == [] <==> Survivors(proposals, threshold) == []
  {
    hide AddAll, AtLeast;
    AddAllBest(proposals, threshold);
    var a := AddAll(proposals, threshold);
    if a.best.Some? {
      var best := a.best.value;
      SurvivorsExact(proposals, threshold, best);
      var i :| 0 <= i < |proposals| && proposals[i].score == best;
      KeptFrom(proposals, threshold);
      AtLeastMember(proposals, best - threshold, proposals[i]);
      if a.kept == [] { AtLeastShrinks(a.kept, best - threshold); }
    } else {
      KeptFrom(proposals, threshold);
    }
  }

  /** A candidate kept when added means the threshold is not negative. */
  lemma {:induction false} KeptFrom(proposals: seq<Node>, threshold: real)
    ensures AddAll(proposals, threshold).kept != [] ==> threshold >= 0.0
    ensures proposals == [] ==> AddAll(proposals, threshold).kept == []
  {
    if proposals != [] { KeptFrom(proposals[..|proposals| - 1], threshold); }
  }
}
