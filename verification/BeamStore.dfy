/** Storing a frame's candidates as the next beam: `candidatesAdd`,
    `mergeCandidates`, `storeTopCandidates` and `candidatesStore`. Sorting is
    only known to be some rearrangement that meets its standard contract. */
module BeamStore {
  import opened Candidates

  // ---- Mass

  function TotalMass(weigh: Node -> real, s: seq<Node>): real {
    if s == [] then 0.0 else TotalMass(weigh, s[..|s| - 1]) + weigh(s[|s| - 1])
  }

  lemma MassSnoc(weigh: Node -> real, s: seq<Node>, x: Node)
    ensures TotalMass(weigh, s + [x]) == TotalMass(weigh, s) + weigh(x)
  {
    assert (s + [x])[..|s|] == s;
  }

  lemma {:induction false} MassRemove(weigh: Node -> real, s: seq<Node>, i: int)
    requires 0 <= i < |s|
    ensures TotalMass(weigh, s) == TotalMass(weigh, s[..i] + s[i + 1..]) + weigh(s[i])
  {
    var n := |s| - 1;
    if i == n {
      assert s[..i] + s[i + 1..] == s[..n];
    } else {
      MassRemove(weigh, s[..n], i);
      var t := s[..n][..i] + s[..n][i + 1..];
      assert s[..i] + s[i + 1..] == t + [s[n]];
      MassSnoc(weigh, t, s[n]);
    }
  }

  lemma RemoveMultiset(t: seq<Node>, i: int)
    requires 0 <= i < |t|
    ensures multiset(t[..i] + t[i + 1..]) == multiset(t) - multiset{t[i]}
  {
    assert t == t[..i] + [t[i]] + t[i + 1..];
  }

  lemma MultisetSnoc(s: seq<Node>, x: Node)
    ensures multiset(s + [x]) == multiset(s) + multiset{x}
  {
  }

  /** Mass does not depend on order. */
  lemma {:induction false} MassOfMultiset(weigh: Node -> real, s: seq<Node>, t: seq<Node>)
    requires multiset(s) == multiset(t)
    ensures TotalMass(weigh, s) == TotalMass(weigh, t)
  {
    hide TotalMass;
    assert |s| == |multiset(s)| == |multiset(t)| == |t|;
    if s == [] {
      assert t == [];
    } else {
      var n := |s| - 1;
      var before, x := s[..n], s[n];
      assert s == before + [x];
      MultisetSnoc(before, x);
      assert x in multiset(t);
      var i :| 0 <= i < |t| && t[i] == x;
      RemoveMultiset(t, i);
      MassOfMultiset(weigh, before, t[..i] + t[i + 1..]);
      MassRemove(weigh, t, i);
      MassSnoc(weigh, before, x);
    }
  }

  function Rescored(x: Node, score: real): Node {
    x.(score := score)
  }

  /** Merging two candidates of one key adds up what they weigh. */
  ghost predicate AddsUp(merge: Merge, weigh: Node -> real) {
    forall a, b :: SameKey(a, b) ==> AddsUpAt(merge, weigh, a, b)
  }

  predicate AddsUpAt(merge: Merge, weigh: Node -> real, a: Node, b: Node) {
    weigh(Rescored(a, Combine(merge, a.score, b.score))) == weigh(a) + weigh(b)
  }

  lemma {:induction false} MergeConserves(merge: Merge, weigh: Node -> real, s: seq<Node>)
    requires AddsUp(merge, weigh)
    ensures TotalMass(weigh, MergeAdjacent(merge, s)) == TotalMass(weigh, s)
  {
    hide AddsUp;
    if |s| > 1 {
      var n := |s| - 1;
      var before, x := s[..n], s[n];
      assert s == before + [x];
      MergeConserves(merge, weigh, before);
      MergeUnfold(merge, before, x);
      MassMergeOne(merge, weigh, MergeAdjacent(merge, before), x);
      MassSnoc(weigh, before, x);
    }
  }

  lemma MassMergeOne(merge: Merge, weigh: Node -> real, r: seq<Node>, x: Node)
    requires r != [] && AddsUp(merge, weigh)
    ensures TotalMass(weigh, MergeOne(merge, r, x)) == TotalMass(weigh, r) + weigh(x)
  {
    hide Combine;
    var k := |r| - 1;
    if SameKey(r[k], x) {
      var r' := MergeOne(merge, r, x);
      assert r'[..k] == r[..k];
      assert AddsUpAt(merge, weigh, r[k], x);
    } else {
      MassSnoc(weigh, r, x);
    }
  }

  /** The mass of a score: what log-add adds up. */
  ghost predicate IsMass(add: (real, real) -> real, mass: real -> real) {
    forall x, y :: mass(add(x, y)) == mass(x) + mass(y)
  }

  function ByScore(mass: real -> real): Node -> real {
    (y: Node) => mass(y.score)
  }

  function ByKey(mass: real -> real, x: Node): Node -> real {
    (y: Node) => if SameKey(y, x) then mass(y.score) else 0.0
  }

  /** The mass of all candidates with the key of x. */
  function KeyMass(mass: real -> real, s: seq<Node>, x: Node): real {
    TotalMass(ByKey(mass, x), s)
  }

  /** With log-add, merging conserves the total mass. */
  lemma MergeMass(add: (real, real) -> real, mass: real -> real, s: seq<Node>)
    requires IsMass(add, mass)
    ensures TotalMass(ByScore(mass), MergeAdjacent(LogAdd(add), s)) == TotalMass(ByScore(mass), s)
  {
    hide TotalMass, MergeAdjacent;
    forall a, b | SameKey(a, b) ensures AddsUpAt(LogAdd(add), ByScore(mass), a, b) { }
    MergeConserves(LogAdd(add), ByScore(mass), s);
  }

  lemma KeyAddsUp(add: (real, real) -> real, mass: real -> real, x: Node)
    requires IsMass(add, mass)
    ensures AddsUp(LogAdd(add), ByKey(mass, x))
  {
    forall a, b | SameKey(a, b) ensures AddsUpAt(LogAdd(add), ByKey(mass, x), a, b) { }
  }

  lemma {:induction false} OtherKeys(mass: real -> real, s: seq<Node>, x: Node)
    requires forall i :: 0 <= i < |s| ==> !SameKey(s[i], x)
    ensures KeyMass(mass, s, x) == 0.0
  {
    if s != [] { OtherKeys(mass, s[..|s| - 1], x); }
  }

  lemma OneOfKey(mass: real -> real, s: seq<Node>, i: int)
    requires DistinctKeys(s) && 0 <= i < |s|
    ensures KeyMass(mass, s, s[i]) == mass(s[i].score)
  {
    hide TotalMass, SameKey;
    var rest := s[..i] + s[i + 1..];
    MassRemove(ByKey(mass, s[i]), s, i);
    forall j | 0 <= j < |rest| ensures !SameKey(rest[j], s[i]) {
      assert rest[j] == if j < i then s[j] else s[j + 1];
      KeySymmetric(s[i], rest[j]);
    }
    OtherKeys(mass, rest, s[i]);
    KeySelf(s[i]);
  }

  lemma KeySymmetric(a: Node, b: Node)
    ensures SameKey(a, b) == SameKey(b, a)
  {
  }

  lemma KeySelf(a: Node)
    ensures SameKey(a, a)
  {
  }

  /** What merging does to the scores decides nothing else. */
  lemma {:induction false} MergeFields(a: Merge, b: Merge, s: seq<Node>)
    ensures var r, t := MergeAdjacent(a, s), MergeAdjacent(b, s);
      |r| == |t| && forall i :: 0 <= i < |r| ==> r[i] == Rescored(t[i], r[i].score)
  {
    hide Combine;
    if |s| > 1 {
      var n := |s| - 1;
      MergeFields(a, b, s[..n]);
      var r, t := MergeAdjacent(a, s[..n]), MergeAdjacent(b, s[..n]);
      var k := |r| - 1;
      assert s == s[..n] + [s[n]];
      MergeUnfold(a, s[..n], s[n]);
      MergeUnfold(b, s[..n], s[n]);
      assert r[k] == Rescored(t[k], r[k].score);
    }
  }

  /** Also with log-add, a merged candidate is the best of its key, up to its score: its
      parent and its word are those of the best way to reach the state. */
  lemma MergeKeepsBest(merge: Merge, s: seq<Node>, i: int) returns (best: Node)
    requires s != [] && Sorted(s) && 0 <= i < |MergeAdjacent(merge, s)|
    ensures best in s && TopOfKey(s, best)
    ensures MergeAdjacent(merge, s)[i] == Rescored(best, MergeAdjacent(merge, s)[i].score)
  {
    hide MergeAdjacent, Sorted, TopOfKey, DistinctKeys, Keys;
    MergeFields(merge, TakeMax, s);
    MergeMeaning(TakeMax, s);
    best := MergeAdjacent(TakeMax, s)[i];
  }

  /** With log-add, each merged candidate carries the mass of all candidates of its key. */
  lemma MergeKeyMass(add: (real, real) -> real, mass: real -> real, s: seq<Node>, i: int)
    requires IsMass(add, mass) && s != [] && Sorted(s) && 0 <= i < |MergeAdjacent(LogAdd(add), s)|
    ensures var r := MergeAdjacent(LogAdd(add), s); mass(r[i].score) == KeyMass(mass, s, r[i])
  {
    hide IsMass, AddsUp, MergeAdjacent, Sorted, TotalMass, KeyMass, Keys, Tops;
    var r := MergeAdjacent(LogAdd(add), s);
    MergeMeaning(LogAdd(add), s);
    OneOfKey(mass, r, i);
    KeyAddsUp(add, mass, r[i]);
    MergeConserves(LogAdd(add), ByKey(mass, r[i]), s);
    KeyMassIs(mass, r, r[i]);
    KeyMassIs(mass, s, r[i]);
  }

  lemma KeyMassIs(mass: real -> real, s: seq<Node>, x: Node)
    ensures KeyMass(mass, s, x) == TotalMass(ByKey(mass, x), s)
  {
  }

  // ---- What storing may produce

  function Min(a: nat, b: nat): nat {
    if a < b then a else b
  }

  /** out is the best K of merged: any choice among ties; in falling order when
      sorted is asked for; as they are when nothing has to be dropped. */
  ghost predicate TopVia(merged: seq<Node>, K: nat, sorted: bool, top: seq<Node>, out: seq<Node>) {
    && multiset(top) == multiset(merged) && |top| == |merged| && out == top[..Min(|merged|, K)]
    && (forall i, j :: 0 <= i < |out| <= j < |top| ==> top[i].score >= top[j].score)
    && (sorted ==> forall i, j :: 0 <= i < j < |out| ==> out[i].score >= out[j].score)
    && (!sorted && |merged| <= K ==> top == merged)
  }

  ghost predicate StoredVia(merge: Merge, K: nat, survivors: seq<Node>, sorted: bool, order: seq<Node>,
                            top: seq<Node>, out: seq<Node>) {
    multiset(order) == multiset(survivors) && Sorted(order) && TopVia(MergeAdjacent(merge, order), K, sorted, top, out)
  }

  /** out may be stored for these proposals. */
  ghost predicate Stored(merge: Merge, K: nat, threshold: real, proposals: seq<Node>, sorted: bool, out: seq<Node>) {
    var survivors := Survivors(proposals, threshold);
    if survivors == [] then out == []
    else exists order, top :: StoredVia(merge, K, survivors, sorted, order, top, out)
  }

  lemma MultisetMember(s: seq<Node>, t: seq<Node>, x: Node)
    requires multiset(s) == multiset(t) && x in s
    ensures x in t
  {
    assert x in multiset(s);
    assert x in multiset(t);
  }

  lemma {:induction false} AtLeastMember(s: seq<Node>, cut: real, x: Node)
    ensures x in AtLeast(s, cut) <==> x in s && x.score >= cut
  {
    if s != [] {
      AtLeastMember(s[..|s| - 1], cut, x);
      assert s == s[..|s| - 1] + [s[|s| - 1]];
    }
  }

  /** Without log-add every stored hypothesis is one of the proposals, unchanged. */
  lemma StoredIsProposed(K: nat, threshold: real, proposals: seq<Node>, sorted: bool, out: seq<Node>, x: Node)
    requires Stored(TakeMax, K, threshold, proposals, sorted, out) && x in out
    ensures x in proposals
  {
    hide Survivors, MergeAdjacent, Sorted, AtLeast;
    var survivors := Survivors(proposals, threshold);
    var order, top :| StoredVia(TakeMax, K, survivors, sorted, order, top, out);
    var merged := MergeAdjacent(TakeMax, order);
    assert x in top;
    MultisetMember(top, merged, x);
    NonEmptyOrder(order, survivors);
    MergeMeaning(TakeMax, order);
    MultisetMember(order, survivors, x);
    SurvivorMember(proposals, threshold, x);
  }

  /** x is an element of s, up to its score. */
  ghost predicate From(s: seq<Node>, x: Node) {
    exists j :: 0 <= j < |s| && x == Rescored(s[j], x.score)
  }

  lemma {:induction false} MergeFrom(merge: Merge, s: seq<Node>, i: int)
    requires 0 <= i < |MergeAdjacent(merge, s)|
    ensures From(s, MergeAdjacent(merge, s)[i])
  {
    if |s| > 1 {
      var n := |s| - 1;
      var before, x := s[..n], s[n];
      assert s == before + [x];
      MergeUnfold(merge, before, x);
      var r := MergeAdjacent(merge, before);
      var y := MergeAdjacent(merge, s)[i];
      if i < |r| {
        MergeFrom(merge, before, i);
        var j :| 0 <= j < |before| && r[i] == Rescored(before[j], r[i].score);
        assert y == Rescored(s[j], y.score);
      } else {
        assert y == s[n];
      }
    }
  }

  /** Also with log-add, a stored hypothesis is one of the proposals up to its score. */
  lemma StoredFrom(merge: Merge, K: nat, threshold: real, proposals: seq<Node>, sorted: bool, out: seq<Node>, x: Node)
    requires Stored(merge, K, threshold, proposals, sorted, out) && x in out
    ensures From(proposals, x)
  {
    hide Survivors, MergeAdjacent, Sorted, AtLeast;
    var survivors := Survivors(proposals, threshold);
    var order, top :| StoredVia(merge, K, survivors, sorted, order, top, out);
    var merged := MergeAdjacent(merge, order);
    assert x in top;
    MultisetMember(top, merged, x);
    var i :| 0 <= i < |merged| && merged[i] == x;
    MergeFrom(merge, order, i);
    var j :| 0 <= j < |order| && x == Rescored(order[j], x.score);
    MultisetMember(order, survivors, order[j]);
    SurvivorMember(proposals, threshold, order[j]);
  }

  /** With log-add, a stored hypothesis carries the mass of all survivors of its key. */
  lemma StoredKeyMass(add: (real, real) -> real, mass: real -> real, K: nat, threshold: real, proposals: seq<Node>,
                      sorted: bool, out: seq<Node>, x: Node)
    requires IsMass(add, mass) && Stored(LogAdd(add), K, threshold, proposals, sorted, out) && x in out
    ensures mass(x.score) == KeyMass(mass, Survivors(proposals, threshold), x)
  {
    hide Survivors, MergeAdjacent, Sorted, AtLeast, IsMass, TotalMass, KeyMass;
    var survivors := Survivors(proposals, threshold);
    var order, top :| StoredVia(LogAdd(add), K, survivors, sorted, order, top, out);
    var merged := MergeAdjacent(LogAdd(add), order);
    assert x in top;
    MultisetMember(top, merged, x);
    var i :| 0 <= i < |merged| && merged[i] == x;
    NonEmptyOrder(order, survivors);
    MergeKeyMass(add, mass, order, i);
    MassOfMultiset(ByKey(mass, x), order, survivors);
    KeyMassIs(mass, order, x);
    KeyMassIs(mass, survivors, x);
  }

  lemma NonEmptyOrder(order: seq<Node>, survivors: seq<Node>)
    requires multiset(order) == multiset(survivors) && survivors != []
    ensures order != []
  {
    assert survivors[0] in multiset(order);
  }

  lemma SurvivorMember(proposals: seq<Node>, threshold: real, x: Node)
    requires x in Survivors(proposals, threshold)
    ensures x in proposals
  {
    hide AtLeast;
    AddAllBest(proposals, threshold);
    var best := AddAll(proposals, threshold).best.value;
    SurvivorsExact(proposals, threshold, best);
    AtLeastMember(proposals, best - threshold, x);
  }

  lemma {:induction false} KeyWitness(s: seq<Node>, x: Node) returns (i: nat)
    requires Key(x) in Keys(s)
    ensures i < |s| && SameKey(s[i], x)
  {
    var n := |s| - 1;
    if Key(s[n]) == Key(x) { i := n; } else { i := KeyWitness(s[..n], x); }
  }

  lemma {:induction false} KeyPresent(s: seq<Node>, i: int)
    requires 0 <= i < |s|
    ensures Key(s[i]) in Keys(s)
  {
    if i < |s| - 1 { KeyPresent(s[..|s| - 1], i); }
  }

  lemma {:induction false} MergeShrinks(merge: Merge, s: seq<Node>)
    ensures |MergeAdjacent(merge, s)| <= |s|
  {
    if |s| > 1 { MergeShrinks(merge, s[..|s| - 1]); }
  }

  lemma {:induction false} AtLeastShrinks(s: seq<Node>, cut: real)
    ensures |AtLeast(s, cut)| <= |s|
  {
    if s != [] { AtLeastShrinks(s[..|s| - 1], cut); }
  }

  /** Nothing is dropped: every proposal is within the threshold of every other
      and there is room for all of them. */
  predicate Lossless(K: nat, threshold: real, proposals: seq<Node>) {
    |proposals| <= K && forall i, j :: 0 <= i < |proposals| && 0 <= j < |proposals| ==>
      proposals[i].score >= proposals[j].score - threshold
  }

  /** Then every proposal is represented in the next beam by a hypothesis in the
      same state that scores at least as much. */
  lemma StoredCovers(K: nat, threshold: real, proposals: seq<Node>, sorted: bool, out: seq<Node>, p: Node)
    returns (i: nat)
    requires Stored(TakeMax, K, threshold, proposals, sorted, out) && Lossless(K, threshold, proposals)
    requires p in proposals
    ensures i < |out| && SameKey(out[i], p) && out[i].score >= p.score
  {
    hide AtLeast, MergeAdjacent, Sorted, Keys, Survivors;
    AddAllBest(proposals, threshold);
    var best := AddAll(proposals, threshold).best.value;
    SurvivorsExact(proposals, threshold, best);
    AtLeastMember(proposals, best - threshold, p);
    AtLeastShrinks(proposals, best - threshold);
    var survivors := Survivors(proposals, threshold);
    var order, top :| StoredVia(TakeMax, K, survivors, sorted, order, top, out);
    MultisetMember(survivors, order, p);
    var j :| 0 <= j < |order| && order[j] == p;
    assert |order| == |multiset(order)| == |multiset(survivors)| == |survivors|;
    MergeShrinks(TakeMax, order);
    MergeMeaning(TakeMax, order);
    var merged := MergeAdjacent(TakeMax, order);
    KeyPresent(order, j);
    var m := KeyWitness(merged, p);
    MultisetMember(merged, top, merged[m]);
    i :| 0 <= i < |top| && top[i] == merged[m];
  }

  // ---- A common offset on all scores changes nothing else

  function Shift(s: seq<Node>, c: real): (r: seq<Node>)
    ensures |r| == |s| && forall i :: 0 <= i < |s| ==> r[i] == s[i].(score := s[i].score + c)
  {
    seq(|s|, i requires 0 <= i < |s| => s[i].(score := s[i].score + c))
  }

  /** Combining commutes with a common offset. */
  ghost predicate Uniform(merge: Merge) {
    forall a: real, b: real, c: real :: UniformAt(merge, a, b, c)
  }

  predicate UniformAt(merge: Merge, a: real, b: real, c: real) {
    Combine(merge, a + c, b + c) == Combine(merge, a, b) + c
  }

  lemma TakeMaxUniform()
    ensures Uniform(TakeMax)
  {
  }

  lemma ShiftSnoc(s: seq<Node>, x: Node, c: real)
    ensures Shift(s + [x], c) == Shift(s, c) + [x.(score := x.score + c)]
  {
  }

  lemma {:induction false} ShiftCount(s: seq<Node>, c: real, x: Node)
    ensures multiset(Shift(s, c))[x] == multiset(s)[x.(score := x.score - c)]
  {
    if s != [] {
      hide Shift;
      var n := |s| - 1;
      var before, y := s[..n], s[n];
      assert s == before + [y];
      ShiftCount(before, c, x);
      ShiftSnoc(before, y, c);
      MultisetSnoc(before, y);
      MultisetSnoc(Shift(before, c), y.(score := y.score + c));
      RaiseLower(x, y, c);
    }
  }

  lemma RaiseLower(x: Node, y: Node, c: real)
    ensures x == y.(score := y.score + c) <==> x.(score := x.score - c) == y
  {
  }

  lemma ShiftMultiset(s: seq<Node>, t: seq<Node>, c: real)
    requires multiset(s) == multiset(t)
    ensures multiset(Shift(s, c)) == multiset(Shift(t, c))
  {
    forall x ensures multiset(Shift(s, c))[x] == multiset(Shift(t, c))[x] {
      ShiftCount(s, c, x);
      ShiftCount(t, c, x);
    }
  }

  lemma ShiftSorted(s: seq<Node>, c: real)
    requires Sorted(s)
    ensures Sorted(Shift(s, c))
  {
    hide KeyAbove;
    var r := Shift(s, c);
    forall i, j | 0 <= i < j < |r| ensures !Above(r[j], r[i]) {
      assert !Above(s[j], s[i]);
      AboveShift(s[j], s[i], c);
    }
  }

  lemma AboveShift(a: Node, b: Node, c: real)
    ensures Above(a.(score := a.score + c), b.(score := b.score + c)) <==> Above(a, b)
  {
  }

  lemma {:induction false} ShiftAdds(s: seq<Node>, threshold: real, c: real)
    ensures var a, b := AddAll(s, threshold), AddAll(Shift(s, c), threshold);
            && b.kept == Shift(a.kept, c) && (a.best.None? <==> b.best.None?)
            && (a.best.Some? ==> b.best.value == a.best.value + c)
  {
    if s != [] {
      hide AddAll;
      var n := |s| - 1;
      var before, y := s[..n], s[n];
      assert s == before + [y];
      ShiftAdds(before, threshold, c);
      ShiftSnoc(before, y, c);
      AddAllSnoc(before, y, threshold);
      AddAllSnoc(Shift(before, c), y.(score := y.score + c), threshold);
      ShiftSnoc(AddAll(before, threshold).kept, y, c);
    }
  }

  lemma {:induction false} ShiftAtLeast(s: seq<Node>, cut: real, c: real)
    ensures AtLeast(Shift(s, c), cut + c) == Shift(AtLeast(s, cut), c)
  {
    if s != [] {
      var n := |s| - 1;
      ShiftAtLeast(s[..n], cut, c);
      assert Shift(s, c)[..n] == Shift(s[..n], c);
    }
  }

  lemma ShiftSurvivors(s: seq<Node>, threshold: real, c: real)
    ensures Survivors(Shift(s, c), threshold) == Shift(Survivors(s, threshold), c)
  {
    hide AddAll, AtLeast;
    ShiftAdds(s, threshold, c);
    var a := AddAll(s, threshold);
    if a.best.Some? {
      ShiftAtLeast(a.kept, a.best.value - threshold, c);
      assert a.best.value + c - threshold == a.best.value - threshold + c;
    }
  }

  lemma {:induction false} ShiftMerge(merge: Merge, s: seq<Node>, c: real)
    requires Uniform(merge)
    ensures MergeAdjacent(merge, Shift(s, c)) == Shift(MergeAdjacent(merge, s), c)
  {
    if |s| > 1 {
      var n := |s| - 1;
      ShiftMerge(merge, s[..n], c);
      hide MergeAdjacent;
      var x := s[n];
      assert s == s[..n] + [x];
      ShiftSnoc(s[..n], x, c);
      MergeUnfold(merge, s[..n], x);
      MergeUnfold(merge, Shift(s[..n], c), x.(score := x.score + c));
      ShiftMergeOne(merge, MergeAdjacent(merge, s[..n]), x, c);
    }
  }

  lemma ShiftMergeOne(merge: Merge, r: seq<Node>, x: Node, c: real)
    requires r != [] && Uniform(merge)
    ensures MergeOne(merge, Shift(r, c), x.(score := x.score + c)) == Shift(MergeOne(merge, r, x), c)
  {
    hide Combine;
    var k := |r| - 1;
    assert UniformAt(merge, r[k].score, x.score, c);
  }

  lemma ShiftTop(merged: seq<Node>, K: nat, sorted: bool, top: seq<Node>, out: seq<Node>, c: real)
    requires TopVia(merged, K, sorted, top, out)
    ensures TopVia(Shift(merged, c), K, sorted, Shift(top, c), Shift(out, c))
  {
    ShiftMultiset(top, merged, c);
    assert Shift(out, c) == Shift(top, c)[..Min(|merged|, K)];
  }

  /** What may be stored for shifted proposals is what may be stored, shifted. */
  lemma ShiftStored(merge: Merge, K: nat, threshold: real, proposals: seq<Node>, sorted: bool, out: seq<Node>, c: real)
    requires Uniform(merge) && Stored(merge, K, threshold, proposals, sorted, out)
    ensures Stored(merge, K, threshold, Shift(proposals, c), sorted, Shift(out, c))
  {
    hide Uniform, Survivors, Sorted, MergeAdjacent, TopVia;
    ShiftSurvivors(proposals, threshold, c);
    var survivors := Survivors(proposals, threshold);
    if survivors != [] {
      var order, top :| StoredVia(merge, K, survivors, sorted, order, top, out);
      ShiftMultiset(order, survivors, c);
      ShiftSorted(order, c);
      ShiftMerge(merge, order, c);
      ShiftTop(MergeAdjacent(merge, order), K, sorted, top, out, c);
      assert StoredVia(merge, K, Shift(survivors, c), sorted, Shift(order, c), Shift(top, c), Shift(out, c));
    }
  }
}
