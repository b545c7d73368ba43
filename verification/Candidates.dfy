/** The candidate machinery shared by the beam-search decoders: the two score
    filters, merging of candidates that reach the same state, and the choice of
    the best K. */
module Candidates {
  import opened Wrappers

  /** A hypothesis. `parent` is the position of the parent in the beam of the
      frame before, -1 for none; `lex` is the trie node (0 without a lexicon). */
  datatype Node = Node(lm: int, lex: int, parent: int, score: real, token: int, word: int, prevBlank: bool)

  /** How the scores of merged candidates combine. */
  datatype Merge = TakeMax | LogAdd(add: (real, real) -> real)

  function Max(a: real, b: real): real {
    if a >= b then a else b
  }

  function Combine(merge: Merge, a: real, b: real): real {
    match merge
    case TakeMax => Max(a, b)
    case LogAdd(add) => add(Max(a, b), if a >= b then b else a)
  }

  // ---- Filtering when a candidate is added, and again when the frame is stored

  datatype Added = Added(best: Option<real>, kept: seq<Node>)

  /** The running filter over a sequence of proposals. */
  function AddAll(proposals: seq<Node>, threshold: real): Added {
    if proposals == [] then Added(None, [])
    else
      var n := |proposals| - 1;
      AddOne(AddAll(proposals[..n], threshold), proposals[n], threshold)
  }

  function AddOne(a: Added, p: Node, threshold: real): Added {
    var best := if a.best.None? || p.score >= a.best.value then p.score else a.best.value;
    Added(Some(best), if p.score >= best - threshold then a.kept + [p] else a.kept)
  }

  /** The nodes that score at least cut, in order. */
  function AtLeast(s: seq<Node>, cut: real): seq<Node> {
    if s == [] then []
    else
      var n := |s| - 1;
      if s[n].score >= cut then AtLeast(s[..n], cut) + [s[n]] else AtLeast(s[..n], cut)
  }

  predicate IsBest(s: seq<Node>, best: real) {
    && (forall i :: 0 <= i < |s| ==> s[i].score <= best)
    && exists i :: 0 <= i < |s| && s[i].score == best
  }

  lemma AtLeastSnoc(s: seq<Node>, p: Node, cut: real)
    ensures AtLeast(s + [p], cut) == if p.score >= cut then AtLeast(s, cut) + [p] else AtLeast(s, cut)
  {
    assert (s + [p])[..|s|] == s;
  }

  lemma AddAllSnoc(before: seq<Node>, p: Node, threshold: real)
    ensures AddAll(before + [p], threshold) == AddOne(AddAll(before, threshold), p, threshold)
  {
    assert (before + [p])[..|before|] == before;
  }

  lemma BestSnoc(s: seq<Node>, p: Node, best: real)
    requires s == [] || IsBest(s, best)
    ensures IsBest(s + [p], if s == [] || p.score >= best then p.score else best)
  {
    var r := s + [p];
    assert r[|s|] == p;
    if s != [] {
      var i :| 0 <= i < |s| && s[i].score == best;
      assert r[i].score == best;
    }
  }

  /** The running best is the best. */
  lemma {:induction false} AddAllBest(proposals: seq<Node>, threshold: real)
    ensures AddAll(proposals, threshold).best.None? <==> proposals == []
    ensures proposals != [] ==> IsBest(proposals, AddAll(proposals, threshold).best.value)
  {
    if proposals != [] {
      hide AddAll, IsBest;
      var n := |proposals| - 1;
      var before, p := proposals[..n], proposals[n];
      AddAllBest(before, threshold);
      AddAllSnoc(before, p, threshold);
      assert proposals == before + [p];
      BestSnoc(before, p, if before == [] then 0.0 else AddAll(before, threshold).best.value);
    }
  }

  /** Whatever the running filter drops would have been dropped at the end. */
  lemma {:induction false} AddAllExact(proposals: seq<Node>, threshold: real, cut: real)
    requires proposals != [] ==>
      AddAll(proposals, threshold).best.Some? && cut >= AddAll(proposals, threshold).best.value - threshold
    ensures AtLeast(AddAll(proposals, threshold).kept, cut) == AtLeast(proposals, cut)
  {
    if proposals != [] {
      var n := |proposals| - 1;
      var before, p := proposals[..n], proposals[n];
      AddAllBest(before, threshold);
      AddAllExact(before, threshold, cut);
      AtLeastSnoc(AddAll(before, threshold).kept, p, cut);
      AtLeastSnoc(before, p, cut);
      assert proposals == before + [p];
    }
  }

  /** What survives both filters. */
  function Survivors(proposals: seq<Node>, threshold: real): seq<Node> {
    var a := AddAll(proposals, threshold);
    if a.best.None? then [] else AtLeast(a.kept, a.best.value - threshold)
  }

  /** The survivors are exactly the proposals within the threshold of the best of
      the frame, in their order; for a negative threshold there are none. */
  lemma SurvivorsExact(proposals: seq<Node>, threshold: real, best: real)
    requires IsBest(proposals, best)
    ensures Survivors(proposals, threshold) == AtLeast(proposals, best - threshold)
  {
    hide AddAll, AtLeast;
    AddAllBest(proposals, threshold);
    AddAllExact(proposals, threshold, best - threshold);
  }

  lemma {:induction false} AtLeastCount(s: seq<Node>, cut: real, x: Node)
    ensures multiset(AtLeast(s, cut))[x] == if x.score >= cut then multiset(s)[x] else 0
  {
    if s != [] {
      var n := |s| - 1;
      AtLeastCount(s[..n], cut, x);
      assert s == s[..n] + [s[n]];
    }
  }

  lemma BestOfMultiset(s: seq<Node>, t: seq<Node>, best: real)
    requires multiset(s) == multiset(t) && IsBest(s, best)
    ensures IsBest(t, best)
  {
    forall i | 0 <= i < |t| ensures t[i].score <= best {
      assert t[i] in multiset(t);
      assert t[i] in s;
    }
    var i :| 0 <= i < |s| && s[i].score == best;
    assert s[i] in multiset(s);
    assert s[i] in t;
  }

  /** The order in which candidates are proposed does not matter. */
  lemma SurvivorsOrder(s: seq<Node>, t: seq<Node>, threshold: real)
    requires multiset(s) == multiset(t)
    ensures multiset(Survivors(s, threshold)) == multiset(Survivors(t, threshold))
  {
    hide AddAll, AtLeast, Survivors, IsBest;
    AddAllBest(s, threshold);
    if s != [] {
      var best := AddAll(s, threshold).best.value;
      BestOfMultiset(s, t, best);
      SurvivorsExact(s, threshold, best);
      SurvivorsExact(t, threshold, best);
      forall x ensures multiset(Survivors(s, threshold))[x] == multiset(Survivors(t, threshold))[x] {
        AtLeastCount(s, best - threshold, x);
        AtLeastCount(t, best - threshold, x);
      }
    } else {
      assert |t| == |multiset(t)| == 0;
    }
  }

  // ---- Merging candidates that reach the same state

  predicate SameKey(a: Node, b: Node) {
    a.lm == b.lm && a.lex == b.lex && a.token == b.token && a.prevBlank == b.prevBlank
  }

  predicate KeyAbove(a: Node, b: Node) {
    if a.lm != b.lm then a.lm > b.lm
    else if a.lex != b.lex then a.lex > b.lex
    else if a.token != b.token then a.token > b.token
    else a.prevBlank && !b.prevBlank
  }

  /** The order candidates are sorted by before merging: by key, then by score. */
  predicate Above(a: Node, b: Node) {
    if SameKey(a, b) then a.score > b.score else KeyAbove(a, b)
  }

  predicate Sorted(s: seq<Node>) {
    forall i, j :: 0 <= i < j < |s| ==> !Above(s[j], s[i])
  }

  /** Neighbours with the same key merged into the first of them. */
  function MergeAdjacent(merge: Merge, s: seq<Node>): (r: seq<Node>)
    ensures r == [] <==> s == []
  {
    if |s| <= 1 then s
    else
      var n := |s| - 1;
      MergeOne(merge, MergeAdjacent(merge, s[..n]), s[n])
  }

  function MergeOne(merge: Merge, r: seq<Node>, x: Node): seq<Node>
    requires r != []
  {
    var k := |r| - 1;
    if SameKey(r[k], x) then r[k := r[k].(score := Combine(merge, r[k].score, x.score))] else r + [x]
  }

  predicate DistinctKeys(s: seq<Node>) {
    forall i, j :: 0 <= i < j < |s| ==> !SameKey(s[i], s[j])
  }

  function Key(x: Node): (int, int, int, bool) {
    (x.lm, x.lex, x.token, x.prevBlank)
  }

  function Keys(s: seq<Node>): set<(int, int, int, bool)> {
    if s == [] then {} else Keys(s[..|s| - 1]) + {Key(s[|s| - 1])}
  }

  lemma KeysSnoc(s: seq<Node>, x: Node)
    ensures Keys(s + [x]) == Keys(s) + {Key(x)}
  {
    assert (s + [x])[..|s|] == s;
  }

  /** Keys that strictly fall from each element to the next. */
  predicate Falling(s: seq<Node>) {
    forall i :: 0 <= i < |s| - 1 ==> KeyAbove(s[i], s[i + 1])
  }

  /** x scores at least as much as everything in s with its key. */
  predicate TopOfKey(s: seq<Node>, x: Node) {
    forall j :: 0 <= j < |s| && SameKey(x, s[j]) ==> x.score >= s[j].score
  }

  /** The elements of r are best candidates of s, one per key. */
  predicate Tops(s: seq<Node>, r: seq<Node>) {
    forall i :: 0 <= i < |r| ==> r[i] in s && TopOfKey(s, r[i])
  }

  lemma KeyOrder(a: Node, b: Node, c: Node)
    ensures KeyAbove(a, b) && KeyAbove(b, c) ==> KeyAbove(a, c)
    ensures KeyAbove(a, b) || KeyAbove(b, a) || SameKey(a, b)
    ensures KeyAbove(a, b) ==> !SameKey(a, b) && !KeyAbove(b, a)
    ensures SameKey(a, b) ==> (KeyAbove(a, c) <==> KeyAbove(b, c)) && (KeyAbove(c, a) <==> KeyAbove(c, b))
  {
  }

  /** What merging a sorted sequence keeps while it runs. */
  ghost predicate MergedSoFar(merge: Merge, s: seq<Node>, r: seq<Node>) {
    && s != [] && r != [] && Falling(r) && SameKey(r[|r| - 1], s[|s| - 1]) && Keys(r) == Keys(s)
    && (merge.TakeMax? ==> Tops(s, r))
  }

  /** In a sorted sequence a new key has not been seen before. */
  lemma NewKey(s: seq<Node>, x: Node, j: int)
    requires s != [] && Sorted(s + [x]) && !SameKey(s[|s| - 1], x) && 0 <= j < |s|
    ensures KeyAbove(s[|s| - 1], x) && !SameKey(s[j], x)
  {
    hide KeyAbove;
    var s', n := s + [x], |s| - 1;
    assert !Above(s'[n + 1], s'[n]);
    assert j < n ==> !Above(s'[n], s'[j]);
    KeyOrder(s[n], x, s[j]);
    KeyOrder(x, s[j], s[n]);
  }

  lemma MergeNew(merge: Merge, s: seq<Node>, r: seq<Node>, x: Node)
    requires MergedSoFar(merge, s, r) && Sorted(s + [x]) && !SameKey(r[|r| - 1], x)
    ensures MergedSoFar(merge, s + [x], r + [x])
  {
    hide KeyAbove, Above, Keys;
    NewKey(s, x, 0);
    KeyOrder(r[|r| - 1], s[|s| - 1], x);
    KeysSnoc(s, x);
    KeysSnoc(r, x);
    if merge.TakeMax? {
      forall j | 0 <= j < |s| ensures !SameKey(s[j], x) { NewKey(s, x, j); }
      assert Tops(s + [x], r + [x]);
    }
  }

  lemma MergeSame(merge: Merge, s: seq<Node>, r: seq<Node>, x: Node)
    requires MergedSoFar(merge, s, r) && Sorted(s + [x]) && SameKey(r[|r| - 1], x)
    ensures MergedSoFar(merge, s + [x], MergeOne(merge, r, x))
  {
    hide KeyAbove, Keys, Tops, Sorted, Falling;
    var k, r' := |r| - 1, MergeOne(merge, r, x);
    KeysSnoc(s, x);
    LastKey(r);
    SameKeys(r, r');
    SameFalling(r, r');
    if merge.TakeMax? {
      MergeSameTops(s, r, x);
      assert r' == r;
    }
  }

  /** A later candidate of the same key does not beat the first. */
  lemma MergeSameTops(s: seq<Node>, r: seq<Node>, x: Node)
    requires s != [] && r != [] && Sorted(s + [x]) && Tops(s, r)
    requires SameKey(r[|r| - 1], s[|s| - 1]) && SameKey(r[|r| - 1], x)
    ensures x.score <= r[|r| - 1].score && Tops(s + [x], r)
  {
    hide KeyAbove;
    var s', n := s + [x], |s| - 1;
    assert !Above(s'[n + 1], s'[n]);
    assert x.score <= s[n].score;
    forall i | 0 <= i < |r| ensures r[i] in s' && TopOfKey(s', r[i]) {
      assert r[i] in s && TopOfKey(s, r[i]);
    }
  }

  lemma LastKey(r: seq<Node>)
    requires r != []
    ensures Key(r[|r| - 1]) in Keys(r)
  {
  }

  lemma {:induction false} SameKeys(r: seq<Node>, r': seq<Node>)
    requires |r| == |r'| && forall i :: 0 <= i < |r| ==> SameKey(r[i], r'[i])
    ensures Keys(r) == Keys(r')
  {
    if r != [] { SameKeys(r[..|r| - 1], r'[..|r| - 1]); }
  }

  lemma SameFalling(r: seq<Node>, r': seq<Node>)
    requires |r| == |r'| && Falling(r) && forall i :: 0 <= i < |r| ==> SameKey(r[i], r'[i])
    ensures Falling(r')
  {
  }

  lemma {:induction false} FallingApart(s: seq<Node>, i: int, j: int)
    requires Falling(s) && 0 <= i < j < |s|
    ensures KeyAbove(s[i], s[j]) && !SameKey(s[i], s[j])
    decreases j
  {
    hide KeyAbove;
    if i < j - 1 { FallingApart(s, i, j - 1); }
    KeyOrder(s[i], s[j - 1], s[j]);
    KeyOrder(s[i], s[j], s[j]);
  }

  lemma {:induction false} MergeRuns(merge: Merge, s: seq<Node>)
    requires s != [] && Sorted(s)
    ensures MergedSoFar(merge, s, MergeAdjacent(merge, s))
  {
    if |s| > 1 {
      var n := |s| - 1;
      var before, x := s[..n], s[n];
      assert s == before + [x];
      MergeRuns(merge, before);
      hide MergedSoFar, Sorted, MergeAdjacent;
      MergeUnfold(merge, before, x);
      MergeNext(merge, before, MergeAdjacent(merge, before), x);
    }
  }

  lemma MergeUnfold(merge: Merge, before: seq<Node>, x: Node)
    requires before != []
    ensures MergeAdjacent(merge, before + [x]) == MergeOne(merge, MergeAdjacent(merge, before), x)
  {
    assert (before + [x])[..|before|] == before;
  }

  lemma MergeNext(merge: Merge, s: seq<Node>, r: seq<Node>, x: Node)
    requires MergedSoFar(merge, s, r) && Sorted(s + [x])
    ensures MergedSoFar(merge, s + [x], MergeOne(merge, r, x))
  {
    hide Sorted, Falling, Keys, Tops;
    if SameKey(r[|r| - 1], x) { MergeSame(merge, s, r, x); } else { MergeNew(merge, s, r, x); }
  }

  /** Merging leaves one candidate per key and loses no key; without log-add it
      is the best candidate of its key, unchanged. */
  lemma MergeMeaning(merge: Merge, s: seq<Node>)
    requires s != [] && Sorted(s)
    ensures var r := MergeAdjacent(merge, s);
            DistinctKeys(r) && Keys(r) == Keys(s) && (merge.TakeMax? ==> Tops(s, r))
  {
    hide Sorted, MergeAdjacent, Keys, Tops, Falling;
    MergeRuns(merge, s);
    var r := MergeAdjacent(merge, s);
    forall i, j | 0 <= i < j < |r| ensures !SameKey(r[i], r[j]) { FallingApart(r, i, j); }
  }
}
