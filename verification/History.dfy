/** Reading hypotheses back: parent chains, `getHypothesis` and `findBestAncestor`. */
module History {
  import opened Candidates
  import opened Decoder

  /** A hypothesis by frame and position; Null is the null pointer. */
  datatype Ref = Null | Ptr(frame: int, pos: int)

  /** Hypotheses of the first frame have no parent, all others have one in the frame before. */
  ghost predicate Chained(beams: seq<seq<Node>>) {
    && beams != []
    && (forall i :: 0 <= i < |beams[0]| ==> beams[0][i].parent == -1)
    && (forall k :: 1 <= k < |beams| ==> Linked(beams[k], |beams[k - 1]|))
  }

  ghost predicate IsRef(beams: seq<seq<Node>>, k: int, i: int) {
    0 <= k < |beams| && 0 <= i < |beams[k]|
  }

  /** The position at frame j of the ancestor of hypothesis i of frame k. */
  ghost function Ancestor(beams: seq<seq<Node>>, k: int, i: int, j: int): (p: int)
    requires Chained(beams) && IsRef(beams, k, i) && 0 <= j <= k
    ensures IsRef(beams, j, p)
    decreases k
  {
    if j == k then i else
      assert Linked(beams[k], |beams[k - 1]|);
      Ancestor(beams, k - 1, beams[k][i].parent, j)
  }

  /** Ancestors are linked by their parent fields. */
  lemma {:induction false} AncestorStep(beams: seq<seq<Node>>, k: int, i: int, j: int)
    requires Chained(beams) && IsRef(beams, k, i) && 0 < j <= k
    ensures Ancestor(beams, k, i, j - 1) == beams[j][Ancestor(beams, k, i, j)].parent
    decreases k
  {
    if j < k {
      assert Linked(beams[k], |beams[k - 1]|);
      AncestorStep(beams, k - 1, beams[k][i].parent, j);
    }
  }

  lemma AncestorSelf(beams: seq<seq<Node>>, k: int, i: int)
    requires Chained(beams) && IsRef(beams, k, i)
    ensures Ancestor(beams, k, i, k) == i
  {
  }

  method Parent(beams: seq<seq<Node>>, r: Ref) returns (p: Ref)
    requires Chained(beams) && r.Ptr? && IsRef(beams, r.frame, r.pos)
    ensures p == if r.frame == 0 then Null else Ptr(r.frame - 1, beams[r.frame][r.pos].parent)
  {
    var parent := beams[r.frame][r.pos].parent;
    assert r.frame > 0 ==> Linked(beams[r.frame], |beams[r.frame - 1]|);
    p := if parent < 0 then Null else Ptr(r.frame - 1, parent);
  }

  datatype DecodeResult = DecodeResult(score: real, words: seq<int>, tokens: seq<int>)

  /** Slot j holds the word and token of the ancestor at frame j. */
  ghost predicate ReadBack(beams: seq<seq<Node>>, k: int, i: int, result: DecodeResult)
    requires Chained(beams) && IsRef(beams, k, i)
  {
    && result.score == beams[k][i].score && |result.words| == |result.tokens| == k + 1
    && forall j :: 0 <= j <= k ==>
         var x := beams[j][Ancestor(beams, k, i, j)]; result.words[j] == x.word && result.tokens[j] == x.token
  }

  /** Every slot is written, and none outside the result. */
  method GetHypothesis(beams: seq<seq<Node>>, node: Ref, finalFrame: int) returns (result: DecodeResult)
    requires Chained(beams) && (node.Ptr? ==> IsRef(beams, node.frame, node.pos) && node.frame == finalFrame)
    ensures node.Null? ==> result == DecodeResult(0.0, [], [])
    ensures node.Ptr? ==> ReadBack(beams, node.frame, node.pos, result)
  {
    hide Ancestor, Chained;
    if node.Null? { return DecodeResult(0.0, [], []); }
    AncestorSelf(beams, finalFrame, node.pos);
    var words, tokens := new int[finalFrame + 1](_ => -1), new int[finalFrame + 1](_ => -1);
    var node', i := node, 0;
    while node'.Ptr?
      invariant 0 <= i <= finalFrame + 1
      invariant i <= finalFrame ==> node' == Ptr(finalFrame - i, Ancestor(beams, finalFrame, node.pos, finalFrame - i))
      invariant node'.Null? <==> i > finalFrame
      invariant forall j :: finalFrame - i < j <= finalFrame ==>
        var x := beams[j][Ancestor(beams, finalFrame, node.pos, j)]; words[j] == x.word && tokens[j] == x.token
      decreases finalFrame + 1 - i
    {
      words[finalFrame - i] := beams[node'.frame][node'.pos].word;
      tokens[finalFrame - i] := beams[node'.frame][node'.pos].token;
      if i < finalFrame { AncestorStep(beams, finalFrame, node.pos, finalFrame - i); }
      node' := Parent(beams, node');
      i := i + 1;
    }
    result := DecodeResult(beams[node.frame][node.pos].score, words[..], tokens[..]);
  }

  // ---- The best hypothesis and its first complete ancestor

  const LOOK_BACK_LIMIT := 100

  ghost predicate IsFirstBest(beam: seq<Node>, b: int) {
    && 0 <= b < |beam|
    && (forall i :: 0 <= i < |beam| ==> beam[i].score <= beam[b].score)
    && (forall i :: 0 <= i < b ==> beam[i].score < beam[b].score)
  }

  method FirstBest(beam: seq<Node>) returns (b: int)
    requires beam != []
    ensures IsFirstBest(beam, b)
  {
    b := 0;
    for r := 1 to |beam|
      invariant 0 <= b < r && IsFirstBest(beam[..r], b)
    {
      if beam[r].score > beam[b].score { b := r; }
    }
    assert beam[..|beam|] == beam;
  }

  /** No word is cut: without a lexicon always; otherwise a word just ended or nothing came before. */
  predicate IsComplete(cfg: Config, beams: seq<seq<Node>>, k: int, i: int)
    requires 0 <= k < |beams| && 0 <= i < |beams[k]|
    requires k > 0 ==> Linked(beams[k], |beams[k - 1]|)
  {
    cfg.lexicon.Some? ==> k == 0 || beams[k - 1][beams[k][i].parent].word >= 0
  }

  ghost predicate CompleteAt(cfg: Config, beams: seq<seq<Node>>, b: int, n: int)
    requires Chained(beams) && IsRef(beams, |beams| - 1, b) && 0 <= n < |beams|
  {
    var k := |beams| - 1;
    IsComplete(cfg, beams, k - n, Ancestor(beams, k, b, k - n))
  }

  function AtLeastZero(n: int): nat {
    if n < 0 then 0 else n
  }

  /** How far back the first complete ancestor is, starting n back. */
  ghost function Climb(cfg: Config, beams: seq<seq<Node>>, b: int, limit: int, n: nat): (m: int)
    requires Chained(beams) && IsRef(beams, |beams| - 1, b) && n <= |beams|
    ensures n <= m <= |beams|
    decreases |beams| - n
  {
    if n == |beams| || CompleteAt(cfg, beams, b, n) then n
    else if n + 1 == limit then n + 1
    else Climb(cfg, beams, b, limit, n + 1)
  }

  /** The number of frames `findBestAncestor` goes back. */
  ghost function LookBack(cfg: Config, beams: seq<seq<Node>>, b: int, lookBack: int): (m: int)
    requires Chained(beams) && IsRef(beams, |beams| - 1, b)
    ensures 0 <= m <= |beams|
  {
    if lookBack >= |beams| then |beams| else Climb(cfg, beams, b, lookBack + LOOK_BACK_LIMIT, AtLeastZero(lookBack))
  }

  /** It is the nearest complete ancestor at least lookBack frames back, unless the
      limit cuts the search short or the chain is too short. */
  lemma {:induction false} ClimbMeaning(cfg: Config, beams: seq<seq<Node>>, b: int, limit: int, n: nat)
    requires Chained(beams) && IsRef(beams, |beams| - 1, b) && n <= |beams|
    ensures var m := Climb(cfg, beams, b, limit, n);
      && (m < |beams| && m != limit ==> CompleteAt(cfg, beams, b, m))
      && (forall j :: n <= j < m ==> !CompleteAt(cfg, beams, b, j))
      && (n < |beams| ==> m < |beams|) && (n < limit ==> m <= limit)
    decreases |beams| - n
  {
    hide CompleteAt;
    if n < |beams| && !CompleteAt(cfg, beams, b, n) {
      RootComplete(cfg, beams, b);
      if n + 1 != limit { ClimbMeaning(cfg, beams, b, limit, n + 1); }
    }
  }

  lemma RootComplete(cfg: Config, beams: seq<seq<Node>>, b: int)
    requires Chained(beams) && IsRef(beams, |beams| - 1, b)
    ensures CompleteAt(cfg, beams, b, |beams| - 1)
  {
  }

  ghost function RefBack(beams: seq<seq<Node>>, b: int, n: int): Ref
    requires Chained(beams) && IsRef(beams, |beams| - 1, b) && 0 <= n <= |beams|
  {
    var k := |beams| - 1;
    if n > k then Null else Ptr(k - n, Ancestor(beams, k, b, k - n))
  }

  lemma RefBackNext(beams: seq<seq<Node>>, b: int, n: int)
    requires Chained(beams) && IsRef(beams, |beams| - 1, b) && 0 <= n < |beams|
    ensures var r := RefBack(beams, b, n);
      RefBack(beams, b, n + 1) == if r.frame == 0 then Null else Ptr(r.frame - 1, beams[r.frame][r.pos].parent)
  {
    var k := |beams| - 1;
    if n < k { AncestorStep(beams, k, b, k - n); }
  }

  /** The node returned is exactly n frames before the last one. */
  method FindBestAncestor(cfg: Config, beams: seq<seq<Node>>, lookBack: int) returns (node: Ref, n: int, ghost b: int)
    requires Chained(beams)
    ensures beams[|beams| - 1] == [] ==> node == Null && n == lookBack
    ensures beams[|beams| - 1] != [] ==>
      IsFirstBest(beams[|beams| - 1], b) && n == LookBack(cfg, beams, b, lookBack) && node == RefBack(beams, b, n)
  {
    var k := |beams| - 1;
    if beams[k] == [] { return Null, lookBack, 0; }
    var best := FirstBest(beams[k]);
    b := best;
    n, node := 0, Ptr(k, best);
    hide Ancestor, CompleteAt, RefBack, Chained;
    assert node == RefBack(beams, b, 0) by { RefBackStart(beams, b); }
    while node.Ptr? && n < lookBack
      invariant 0 <= n <= |beams| && node == RefBack(beams, b, n) && n <= AtLeastZero(lookBack)
      decreases |beams| - n
    {
      node := Previous(beams, b, n, node);
      n := n + 1;
    }
    ghost var m := Climb(cfg, beams, b, lookBack + LOOK_BACK_LIMIT, n);
    RefBackNull(beams, b, n);
    if node.Null? { return; }
    var maxLookBack := lookBack + LOOK_BACK_LIMIT;
    while node.Ptr?
      invariant 0 <= n <= |beams| && node == RefBack(beams, b, n)
      invariant m == Climb(cfg, beams, b, maxLookBack, n)
      decreases |beams| - n
    {
      RefBackNull(beams, b, n);
      var complete := Complete(cfg, beams, b, n, node);
      if complete { break; }
      node := Previous(beams, b, n, node);
      n := n + 1;
      if n == maxLookBack { return; }
    }
    RefBackNull(beams, b, n);
  }

  lemma RefBackStart(beams: seq<seq<Node>>, b: int)
    requires Chained(beams) && IsRef(beams, |beams| - 1, b)
    ensures RefBack(beams, b, 0) == Ptr(|beams| - 1, b)
  {
  }

  lemma RefBackNull(beams: seq<seq<Node>>, b: int, n: int)
    requires Chained(beams) && IsRef(beams, |beams| - 1, b) && 0 <= n <= |beams|
    ensures RefBack(beams, b, n).Null? <==> n == |beams|
  {
  }

  method Previous(beams: seq<seq<Node>>, ghost b: int, ghost n: int, node: Ref) returns (node': Ref)
    requires Chained(beams) && IsRef(beams, |beams| - 1, b) && 0 <= n <= |beams| && node == RefBack(beams, b, n)
    requires node.Ptr?
    ensures n < |beams| && node' == RefBack(beams, b, n + 1)
  {
    RefBackNext(beams, b, n);
    node' := Parent(beams, node);
  }

  method Complete(cfg: Config, beams: seq<seq<Node>>, ghost b: int, ghost n: int, node: Ref) returns (complete: bool)
    requires Chained(beams) && IsRef(beams, |beams| - 1, b) && 0 <= n < |beams| && node == RefBack(beams, b, n)
    ensures complete <==> CompleteAt(cfg, beams, b, n)
  {
    assert node.frame > 0 ==> Linked(beams[node.frame], |beams[node.frame - 1]|);
    complete := IsComplete(cfg, beams, node.frame, node.pos);
  }
}
