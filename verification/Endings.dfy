/** What pruning and ending leave behind, and why a beam never dies out. */
module Endings {
  import opened Candidates
  import opened BeamStore
  import opened Decoder
  import opened Beams
  import opened History
  import opened Online

  // ---- Pruning

  /** The same hypotheses with the same scores, parents apart. */
  predicate SameScores(a: seq<Node>, b: seq<Node>) {
    |a| == |b| && forall i :: 0 <= i < |a| ==> b[i].(parent := a[i].parent) == a[i]
  }

  /** The frames from start on: the last with its best score made 0 by adding c to all, the
      others with their scores, the first without parents. */
  ghost predicate Rescaled(beams: seq<seq<Node>>, beams': seq<seq<Node>>, start: int, c: real) {
    && 0 <= start < |beams| == start + |beams'|
    && (forall j :: 0 <= j < |beams'| - 1 ==> SameScores(beams[start + j], beams'[j]))
    && (forall j :: 0 < j < |beams'| - 1 ==> beams'[j] == beams[start + j])
    && (forall i :: 0 <= i < |beams'[0]| ==> beams'[0][i].parent == -1)
    && IsBest(beams'[|beams'| - 1], 0.0) && Alike(beams[|beams| - 1], beams'[|beams'| - 1], c)
  }

  lemma DroppedRescales(beams: seq<seq<Node>>, start: int, best: real, b: int)
    requires 0 <= start < |beams| && IsFirstBest(beams[|beams| - 1], b) && best == beams[|beams| - 1][b].score
    ensures Rescaled(beams, Dropped(beams, start, best), start, -best)
  {
    var d: seq<seq<Node>>, k := Dropped(beams, start, best), |beams| - 1 - start;
    assert |d| == k + 1;
    assert d[k][b].score == 0.0;
  }

  /** That is what a prune that changes anything leaves. */
  lemma PruneRescales(cfg: Config, m: Machine, lookBack: int, m': Machine) returns (c: real)
    requires Sound(m) && Prunes(cfg, m, lookBack, m') && m' != m
    ensures m'.pruned > m.pruned && Rescaled(m.beams, m'.beams, m'.pruned - m.pruned, c)
  {
    hide Chained, Dropped, Rescaled;
    var last := |m.beams| - 1;
    var b :| IsFirstBest(m.beams[last], b) && PrunesFrom(cfg, m, lookBack, b, m');
    var n, best := LookBack(cfg, m.beams, b, lookBack), m.beams[last][b].score;
    DroppedRescales(m.beams, last - n, best, b);
    c := -best;
  }

  // ---- Nothing dies out

  /** The best proposal is stored, so something is. */
  lemma StoredSome(merge: Merge, K: nat, threshold: real, proposals: seq<Node>, sorted: bool, out: seq<Node>)
    requires Stored(merge, K, threshold, proposals, sorted, out) && proposals != [] && K >= 1 && threshold >= 0.0
    ensures out != []
  {
    hide Survivors, MergeAdjacent, Sorted, AtLeast;
    AddAllBest(proposals, threshold);
    var best := AddAll(proposals, threshold).best.value;
    SurvivorsExact(proposals, threshold, best);
    var i :| 0 <= i < |proposals| && proposals[i].score == best;
    AtLeastMember(proposals, best - threshold, proposals[i]);
    var survivors := Survivors(proposals, threshold);
    assert proposals[i] in survivors;
    var order, top :| StoredVia(merge, K, survivors, sorted, order, top, out);
    NonEmptyOrder(order, survivors);
  }

  /** There is something to propose: staying, with a lexicon; some token, without one. */
  predicate CanGoOn(cfg: Config, row: seq<real>) {
    cfg.beamSize >= 1 && cfg.threshold >= 0.0 && (cfg.lexicon.None? ==> |row| >= 1 && cfg.beamSizeToken >= 1)
  }

  lemma SomethingProposed(cfg: Config, first: bool, row: seq<real>, tokens: seq<int>, beam: seq<Node>)
    requires CanGoOn(cfg, row) && TokenChoice(row, cfg.beamSizeToken, tokens) && beam != []
    ensures ProposeAll(cfg, first, row, tokens, beam) != []
  {
    hide ProposeFree, AcousticStep;
    var n := |beam| - 1;
    var from := ProposeFrom(cfg, first, row, tokens, beam[n], n);
    if cfg.lexicon.None? {
      assert tokens != [];
      var last := ProposeToken(cfg, first, row, beam[n], n, tokens[|tokens| - 1]);
      assert |last| == 1;
      assert |from| >= 1;
    } else {
      assert |ProposeStay(cfg, first, row, beam[n], n)| >= 1;
      assert |from| >= 1;
    }
  }

  lemma FrameAlive(cfg: Config, first: bool, row: seq<real>, beam: seq<Node>, out: seq<Node>)
    requires CanGoOn(cfg, row) && FrameStep(cfg, first, row, beam, out) && beam != []
    ensures out != []
  {
    hide TokenChoice, ProposeAll, Stored;
    var tokens :| TokenChoice(row, cfg.beamSizeToken, tokens)
      && Stored(cfg.merge, cfg.beamSize, cfg.threshold, ProposeAll(cfg, first, row, tokens, beam), false, out);
    SomethingProposed(cfg, first, row, tokens, beam);
    StoredSome(cfg.merge, cfg.beamSize, cfg.threshold, ProposeAll(cfg, first, row, tokens, beam), false, out);
  }

  /** No beam of any decoding is empty. */
  lemma {:induction false} NeverEmpty(cfg: Config, rows: seq<seq<real>>, m: Machine, t: nat)
    requires Steps(cfg, Begin(cfg), rows, m) && t <= |rows| && forall u :: 0 <= u < |rows| ==> CanGoOn(cfg, rows[u])
    ensures m.beams[t] != []
  {
    hide FrameStep, CanGoOn;
    if t == 0 {
      assert m.beams[0] == m.beams[..1][0] == Begin(cfg).beams[0];
    } else {
      NeverEmpty(cfg, rows, m, t - 1);
      assert StepAt(cfg, Begin(cfg), rows, m.beams, t - 1);
      FrameAlive(cfg, t == 1, rows[t - 1], m.beams[t - 1], m.beams[t]);
    }
  }

  // ---- Ending

  lemma {:induction false} FinalsContain(cfg: Config, nice: bool, beam: seq<Node>, j: int)
    requires 0 <= j < |beam|
    ensures (!nice || beam[j].lex == 0) ==> ProposeFinal(cfg, beam[j], j) in ProposeFinals(cfg, nice, beam)
    ensures nice && beam[j].lex != 0 ==> forall y :: y in ProposeFinals(cfg, nice, beam) ==> y.parent != j
  {
    var n := |beam| - 1;
    if j < n {
      FinalsContain(cfg, nice, beam[..n], j);
    } else {
      FinalsLinked(cfg, nice, beam[..n]);
    }
  }

  /** A hypothesis may end the utterance. */
  predicate MayEnd(cfg: Config, beam: seq<Node>, j: int)
    requires 0 <= j < |beam|
  {
    cfg.lexicon.None? || beam[j].lex == 0 || forall i :: 0 <= i < |beam| ==> beam[i].lex != 0
  }

  /** Exactly those are finished that may end: with a lexicon, those between words; all of
      them when none is. */
  lemma FinalsExactly(cfg: Config, beam: seq<Node>, j: int)
    requires 0 <= j < |beam|
    ensures MayEnd(cfg, beam, j) <==>
      ProposeFinal(cfg, beam[j], j) in ProposeFinals(cfg, NiceEnding(cfg, beam), beam)
  {
    hide ProposeFinals;
    FinalsContain(cfg, NiceEnding(cfg, beam), beam, j);
  }

  /** So some hypothesis always ends. */
  lemma FinalAlive(cfg: Config, beam: seq<Node>, out: seq<Node>)
    requires FinalStep(cfg, beam, out) && beam != [] && cfg.beamSize >= 1 && cfg.threshold >= 0.0
    ensures out != []
  {
    hide ProposeFinals, Stored, ProposeFinal;
    var j := if i :| 0 <= i < |beam| && beam[i].lex == 0 then i else 0;
    FinalsExactly(cfg, beam, j);
    StoredSome(cfg.merge, cfg.beamSize, cfg.threshold, ProposeFinals(cfg, NiceEnding(cfg, beam), beam), true, out);
  }

  lemma {:induction false} FinalsSilent(cfg: Config, nice: bool, beam: seq<Node>, y: Node)
    requires y in ProposeFinals(cfg, nice, beam)
    ensures y.token == cfg.sil && y.word == -1 && !y.prevBlank
  {
    var n := |beam| - 1;
    if y in ProposeFinals(cfg, nice, beam[..n]) { FinalsSilent(cfg, nice, beam[..n], y); }
  }

  /** After the end, the first and the last slot read back hold silence and no word. */
  lemma EndIsSilent(cfg: Config, rows: seq<seq<real>>, m: Machine, m': Machine, i: int, result: DecodeResult)
    requires Sound(m) && Steps(cfg, Begin(cfg), rows, m) && Ends(cfg, m, m') && Sound(m')
    requires IsRef(m'.beams, |rows| + 1, i) && ReadBack(m'.beams, |rows| + 1, i, result)
    ensures result.tokens[0] == cfg.sil && result.words[0] == -1
    ensures result.tokens[|rows| + 1] == cfg.sil && result.words[|rows| + 1] == -1
  {
    hide Stored, ProposeFinals, StepAt, Chained, NiceEnding;
    var k := |rows| + 1;
    var beam, out := m.beams[|rows|], m'.beams[k];
    var proposals := ProposeFinals(cfg, NiceEnding(cfg, beam), beam);
    AncestorSelf(m'.beams, k, i);
    StoredFrom(cfg.merge, cfg.beamSize, cfg.threshold, proposals, true, out, out[i]);
    var j :| 0 <= j < |proposals| && out[i] == Rescored(proposals[j], out[i].score);
    FinalsSilent(cfg, NiceEnding(cfg, beam), beam, proposals[j]);
    assert m.beams[0] == m.beams[..1][0] == Begin(cfg).beams[0];
    assert m'.beams[0] == m'.beams[..k][0] == m.beams[0];
  }
}
