/** The lexicon-free decoder over whole utterances. */
module FreeExact {
  import opened Sums
  import opened Transforms
  import opened Candidates
  import opened BeamStore
  import opened Decoder
  import opened History
  import opened Online
  import opened DecoderScore
  import opened FreeScore
  import Viterbi

  lemma {:induction false} FreeTokens(cfg: Config, first: bool, row: seq<real>, tokens: seq<int>, h: Node, j: int)
    requires cfg.lexicon.None?
    ensures var s := ProposeTokens(cfg, first, row, tokens, h, j);
      |s| == |tokens| && forall i :: 0 <= i < |s| ==> s[i] == ProposeFree(cfg, first, row, h, j, tokens[i])
  {
    hide ProposeFree;
    if tokens != [] { FreeTokens(cfg, first, row, tokens[..|tokens| - 1], h, j); }
  }

  /** A proposal of the lexicon-free decoder appends one of the tokens considered. */
  lemma FreeFrom(cfg: Config, first: bool, row: seq<real>, tokens: seq<int>, h: Node, j: int, x: Node) returns (n: int)
    requires cfg.lexicon.None? && TokenChoice(row, cfg.beamSizeToken, tokens)
    requires x in ProposeFrom(cfg, first, row, tokens, h, j)
    ensures 0 <= n < |row| && x == ProposeFree(cfg, first, row, h, j, n)
  {
    hide ProposeFree, ProposeTokens;
    FreeTokens(cfg, first, row, tokens, h, j);
    var i :| 0 <= i < |tokens| && x == ProposeFree(cfg, first, row, h, j, tokens[i]);
    n := tokens[i];
  }

  /** In every frame, a hypothesis scores the objective of the labels it passed. */
  lemma {:induction false} FreeMeaning(cfg: Config, rows: seq<seq<real>>, m: Machine, k: int, i: int)
    returns (tokens: seq<int>)
    requires cfg.lexicon.None? && cfg.merge == TakeMax
    requires Sound(m) && Steps(cfg, Begin(cfg), rows, m) && IsRef(m.beams, k, i)
    ensures tokens == Tokens(Chain(m.beams, k, i)) && StandsAt(cfg, tokens, m.beams[k][i])
    ensures m.beams[k][i].score == FreeObjective(cfg, rows, tokens)
    ensures forall t :: 0 <= t < k ==> 0 <= tokens[t] < |rows[t]|
    decreases k
  {
    hide StandsAt, FreeObjective, FrameStep, ProposeFrom, ProposeFree, TokenChoice, Gain;
    var start := Begin(cfg);
    assert m.beams[0] == m.beams[..1][0] == start.beams[0];
    if k == 0 {
      tokens := [];
      StartStands(cfg, rows);
    } else {
      assert Linked(m.beams[k], |m.beams[k - 1]|);
      var x := m.beams[k][i];
      var h := m.beams[k - 1][x.parent];
      var path := Chain(m.beams, k - 1, x.parent);
      var before := FreeMeaning(cfg, rows, m, k - 1, x.parent);
      assert StepAt(cfg, start, rows, m.beams, k - 1);
      var considered := FrameExtends(cfg, k == 1, rows[k - 1], m.beams[k - 1], m.beams[k], x);
      var n := FreeFrom(cfg, k == 1, rows[k - 1], considered, h, x.parent, x);
      ProposeGains(cfg, rows, before, h, x.parent, n);
      ObjectiveSnoc(cfg, rows, before, n);
      TokensSnoc(path, x);
      ProposedToken(cfg, k == 1, rows[k - 1], h, x.parent, n);
      tokens := before + [n];
    }
  }

  lemma ProposedToken(cfg: Config, first: bool, row: seq<real>, h: Node, j: int, n: int)
    ensures ProposeFree(cfg, first, row, h, j, n).token == n
  {
  }

  lemma StartStands(cfg: Config, rows: seq<seq<real>>)
    ensures var h := Begin(cfg).beams[0][0]; StandsAt(cfg, [], h) && h.score == FreeObjective(cfg, rows, [])
  {
    SaidNone(cfg);
    assert Weighted(cfg, 0.0) == 0.0;
  }

  // ---- When nothing is dropped

  /** All N tokens are considered and no frame drops a candidate. */
  ghost predicate LosslessRun(cfg: Config, N: nat, rows: seq<seq<real>>, m: Machine) {
    && N <= cfg.beamSizeToken && |m.beams| == |rows| + 1
    && (forall t :: 0 <= t < |rows| ==> |rows[t]| == N)
    && (forall t :: 0 <= t < |rows| ==>
         Lossless(cfg.beamSize, cfg.threshold, ProposeAll(cfg, t == 0, rows[t], seq(N, i => i), m.beams[t])))
  }

  /** Every proposal of every hypothesis is among the proposals of the frame. */
  lemma {:induction false} FreeProposed(cfg: Config, first: bool, row: seq<real>, beam: seq<Node>, j: int, n: int)
    requires cfg.lexicon.None? && 0 <= j < |beam| && 0 <= n < |row|
    ensures ProposeFree(cfg, first, row, beam[j], j, n) in ProposeAll(cfg, first, row, seq(|row|, i => i), beam)
  {
    hide ProposeFree, ProposeTokens;
    var tokens := seq(|row|, i => i);
    var last := |beam| - 1;
    if j < last {
      FreeProposed(cfg, first, row, beam[..last], j, n);
    } else {
      FreeTokens(cfg, first, row, tokens, beam[j], j);
      assert ProposeTokens(cfg, first, row, tokens, beam[j], j)[n] == ProposeFree(cfg, first, row, beam[j], j, n);
    }
  }

  /** Then each labeling is represented by a hypothesis that stands where it leads
      and scores at least its objective. */
  lemma {:induction false} FreeCovers(cfg: Config, N: nat, rows: seq<seq<real>>, m: Machine, tokens: seq<int>)
    returns (i: int)
    requires cfg.lexicon.None? && cfg.merge == TakeMax && Sound(m) && Steps(cfg, Begin(cfg), rows, m)
    requires LosslessRun(cfg, N, rows, m) && |tokens| <= |rows| && Below(tokens, N)
    ensures IsRef(m.beams, |tokens|, i) && StandsAt(cfg, tokens, m.beams[|tokens|][i])
    ensures m.beams[|tokens|][i].score >= FreeObjective(cfg, rows, tokens)
  {
    hide StandsAt, FreeObjective, ProposeFree, Gain, Stored, ProposeAll, Lossless;
    var start := Begin(cfg);
    assert m.beams[0] == m.beams[..1][0] == start.beams[0];
    if tokens == [] {
      StartStands(cfg, rows);
      i := 0;
    } else {
      var t := |tokens| - 1;
      var before, n := tokens[..t], tokens[t];
      assert tokens == before + [n];
      var j := FreeCovers(cfg, N, rows, m, before);
      var beam, out, row := m.beams[t], m.beams[t + 1], rows[t];
      FreeProposed(cfg, t == 0, row, beam, j, n);
      var x := ProposeFree(cfg, t == 0, row, beam[j], j, n);
      assert StepAt(cfg, start, rows, m.beams, t);
      var considered :| TokenChoice(row, cfg.beamSizeToken, considered)
        && Stored(cfg.merge, cfg.beamSize, cfg.threshold, ProposeAll(cfg, t == 0, row, considered, beam), false, out);
      assert considered == seq(N, k => k);
      i := StoredCovers(cfg.beamSize, cfg.threshold, ProposeAll(cfg, t == 0, row, considered, beam), false, out, x);
      ProposeGains(cfg, rows, before, beam[j], j, n);
      ObjectiveSnoc(cfg, rows, before, n);
      SameStand(cfg, tokens, x, out[i]);
    }
  }

  lemma SameStand(cfg: Config, tokens: seq<int>, x: Node, y: Node)
    requires StandsAt(cfg, tokens, x) && SameKey(y, x)
    ensures StandsAt(cfg, tokens, y)
  {
  }

  /** A run that drops nothing is exact. */
  lemma LosslessIsExact(cfg: Config, N: nat, rows: seq<seq<real>>, m: Machine, b: int) returns (best: seq<int>)
    requires cfg.lexicon.None? && cfg.merge == TakeMax && Sound(m) && Steps(cfg, Begin(cfg), rows, m)
    requires LosslessRun(cfg, N, rows, m) && IsFirstBest(m.beams[|rows|], b)
    ensures best == Tokens(Chain(m.beams, |rows|, b)) && |best| == |rows| && Below(best, N)
    ensures m.beams[|rows|][b].score == FreeObjective(cfg, rows, best)
    ensures forall tokens: seq<int> :: |tokens| == |rows| && Below(tokens, N) ==>
              FreeObjective(cfg, rows, tokens) <= FreeObjective(cfg, rows, best)
  {
    hide FreeObjective, StandsAt, Lossless, StepAt;
    best := FreeMeaning(cfg, rows, m, |rows|, b);
    forall tokens: seq<int> | |tokens| == |rows| && Below(tokens, N)
      ensures FreeObjective(cfg, rows, tokens) <= FreeObjective(cfg, rows, best)
    {
      var i := FreeCovers(cfg, N, rows, m, tokens);
    }
  }

  // ---- The end of the utterance included

  ghost function FinishedObjective(cfg: Config, rows: seq<seq<real>>, tokens: seq<int>): real {
    FreeObjective(cfg, rows, tokens) + cfg.lmWeight * cfg.lm.finish(LmState(cfg.lm, Said(cfg, tokens))).1
  }

  lemma StoredSorted(merge: Merge, K: nat, threshold: real, proposals: seq<Node>, out: seq<Node>, i: int)
    requires Stored(merge, K, threshold, proposals, true, out) && 0 <= i < |out|
    ensures out[0].score >= out[i].score
  {
    hide Survivors, MergeAdjacent, Sorted;
  }

  lemma {:induction false} FinalProposed(cfg: Config, beam: seq<Node>, j: int)
    requires 0 <= j < |beam|
    ensures ProposeFinal(cfg, beam[j], j) in ProposeFinals(cfg, false, beam)
  {
    hide ProposeFinal;
    if j < |beam| - 1 { FinalProposed(cfg, beam[..|beam| - 1], j); }
  }

  lemma LosslessDecodeIsExact(cfg: Config, N: nat, rows: seq<seq<real>>, m: Machine, m': Machine)
    returns (best: seq<int>)
    requires cfg.lexicon.None? && cfg.merge == TakeMax && Sound(m) && Steps(cfg, Begin(cfg), rows, m)
    requires Ends(cfg, m, m')
    requires LosslessRun(cfg, N, rows, m)
    requires Lossless(cfg.beamSize, cfg.threshold, ProposeFinals(cfg, false, m.beams[|rows|]))
    requires N >= 1
    ensures m'.beams[|rows| + 1] != [] && IsRef(m.beams, |rows|, m'.beams[|rows| + 1][0].parent)
    ensures best == Tokens(Chain(m.beams, |rows|, m'.beams[|rows| + 1][0].parent)) && |best| == |rows| && Below(best, N)
    ensures m'.beams[|rows| + 1][0].score == FinishedObjective(cfg, rows, best)
    ensures forall tokens: seq<int> :: |tokens| == |rows| && Below(tokens, N) ==>
              FinishedObjective(cfg, rows, tokens) <= FinishedObjective(cfg, rows, best)
  {
    hide FreeObjective, Stored, ProposeFinals, LosslessRun, StepAt, Chain, Lossless, FinishedObjective, Chained,
         StandsAt;
    var beam, out := m.beams[|rows|], m'.beams[|rows| + 1];
    var zeros := seq(|rows|, _ => 0);
    var i := FreeFinishes(cfg, N, rows, m, m', zeros);
    var y := out[0];
    StoredIsProposed(cfg.beamSize, cfg.threshold, ProposeFinals(cfg, false, beam), true, out, y);
    FinalBy(cfg, false, beam, y);
    best := FreeMeaning(cfg, rows, m, |rows|, y.parent);
    MeaningBelow(cfg, N, rows, m, best);
    FinalMeans(cfg, rows, best, beam[y.parent], y.parent);
    forall tokens: seq<int> | |tokens| == |rows| && Below(tokens, N)
      ensures FinishedObjective(cfg, rows, tokens) <= FinishedObjective(cfg, rows, best)
    {
      var j := FreeFinishes(cfg, N, rows, m, m', tokens);
      StoredSorted(cfg.merge, cfg.beamSize, cfg.threshold, ProposeFinals(cfg, false, beam), out, j);
    }
  }

  lemma MeaningBelow(cfg: Config, N: nat, rows: seq<seq<real>>, m: Machine, best: seq<int>)
    requires LosslessRun(cfg, N, rows, m) && |best| == |rows|
    requires forall t :: 0 <= t < |rows| ==> 0 <= best[t] < |rows[t]|
    ensures Below(best, N)
  {
    hide Lossless;
  }

  lemma FinalMeans(cfg: Config, rows: seq<seq<real>>, tokens: seq<int>, h: Node, j: int)
    requires StandsAt(cfg, tokens, h)
    ensures ProposeFinal(cfg, h, j).score
      == h.score + FinishedObjective(cfg, rows, tokens) - FreeObjective(cfg, rows, tokens)
  {
    hide FreeObjective, Weighted, Said, LmState;
    WeightedIs(cfg, cfg.lm.finish(LmState(cfg.lm, Said(cfg, tokens))).1);
  }

  /** Each labeling is represented among the final hypotheses. */
  lemma FreeFinishes(cfg: Config, N: nat, rows: seq<seq<real>>, m: Machine, m': Machine, tokens: seq<int>)
    returns (j: int)
    requires cfg.lexicon.None? && cfg.merge == TakeMax && Sound(m) && Steps(cfg, Begin(cfg), rows, m)
    requires Ends(cfg, m, m')
    requires LosslessRun(cfg, N, rows, m)
    requires Lossless(cfg.beamSize, cfg.threshold, ProposeFinals(cfg, false, m.beams[|rows|]))
    requires |tokens| == |rows| && Below(tokens, N)
    ensures 0 <= j < |m'.beams[|rows| + 1]| && m'.beams[|rows| + 1][j].score >= FinishedObjective(cfg, rows, tokens)
  {
    hide FreeObjective, Stored, ProposeFinals, LosslessRun, StepAt, Lossless, FinishedObjective, StandsAt, Chained,
         ProposeFinal;
    var beam := m.beams[|rows|];
    var i := FreeCovers(cfg, N, rows, m, tokens);
    FinalProposed(cfg, beam, i);
    FinalMeans(cfg, rows, tokens, beam[i], i);
    j := StoredCovers(cfg.beamSize, cfg.threshold, ProposeFinals(cfg, false, beam), true, m'.beams[|rows| + 1],
                      ProposeFinal(cfg, beam[i], i));
  }

  // ---- Without a language model it is Viterbi

  ghost predicate ZeroLm(lm: LM) {
    forall s, w :: ScoreAt(lm, s, w) == 0.0
  }

  function ScoreAt(lm: LM, s: int, w: int): real {
    lm.score(s, w).1
  }

  lemma {:induction false} ZeroLmScore(lm: LM, words: seq<int>)
    requires ZeroLm(lm)
    ensures LmScore(lm, words) == 0.0
  {
    if words != [] {
      var n := |words| - 1;
      ZeroLmScore(lm, words[..n]);
      assert ScoreAt(lm, LmState(lm, words[..n]), words[n]) == 0.0;
    }
  }

  lemma ObjectiveIsViterbi(cfg: Config, rows: seq<seq<real>>, tokens: seq<int>)
    requires cfg.criterion == ASG && ZeroLm(cfg.lm) && cfg.silScore == 0.0
    ensures FreeObjective(cfg, rows, tokens) == Viterbi.Score(rows, cfg.trans, tokens)
  {
    hide Viterbi.Score, Count, LmScore, Said;
    ZeroLmScore(cfg.lm, Said(cfg, tokens));
  }

  // ---- Parameters that are large enough

  function Power(N: nat, t: nat): nat {
    if t == 0 then 1 else N * Power(N, t - 1)
  }

  /** Room for all tokens and for one hypothesis per label sequence, and a threshold no
      smaller than what label sequences of one length differ by. */
  ghost predicate Ample(cfg: Config, N: nat, rows: seq<seq<real>>) {
    && N <= cfg.beamSizeToken && (forall t :: 0 <= t < |rows| ==> |rows[t]| == N)
    && (forall t: nat :: t <= |rows| ==> Power(N, t) <= cfg.beamSize)
    && (forall a, b :: Comparable(N, rows, a, b) ==>
         FreeObjective(cfg, rows, a) >= FreeObjective(cfg, rows, b) - cfg.threshold)
  }

  /** Label sequences of one length over the frames. */
  predicate Comparable(N: nat, rows: seq<seq<real>>, a: seq<int>, b: seq<int>) {
    |a| == |b| <= |rows| && Below(a, N) && Below(b, N)
  }

  /** The same for the end of the utterance. */
  ghost predicate AmpleEnd(cfg: Config, N: nat, rows: seq<seq<real>>) {
    forall a, b :: Comparable(N, rows, a, b) && |a| == |rows| ==>
      FinishedObjective(cfg, rows, a) >= FinishedObjective(cfg, rows, b) - cfg.threshold
  }

  lemma StoredSize(merge: Merge, K: nat, threshold: real, proposals: seq<Node>, sorted: bool, out: seq<Node>)
    requires Stored(merge, K, threshold, proposals, sorted, out)
    ensures |out| <= |proposals|
  {
    hide AtLeast, MergeAdjacent, Sorted, Survivors;
    AddAllBest(proposals, threshold);
    var survivors := Survivors(proposals, threshold);
    if survivors != [] {
      SurvivorsSize(proposals, threshold);
      var order, top :| StoredVia(merge, K, survivors, sorted, order, top, out);
      assert |order| == |multiset(order)| == |multiset(survivors)| == |survivors|;
      MergeShrinks(merge, order);
    }
  }

  lemma SurvivorsSize(proposals: seq<Node>, threshold: real)
    ensures |Survivors(proposals, threshold)| <= |proposals|
  {
    hide AtLeast, AddAll;
    AddAllBest(proposals, threshold);
    if proposals != [] {
      var best := AddAll(proposals, threshold).best.value;
      SurvivorsExact(proposals, threshold, best);
      AtLeastShrinks(proposals, best - threshold);
    }
  }

  lemma {:induction false} ProposalCount(cfg: Config, first: bool, row: seq<real>, tokens: seq<int>, beam: seq<Node>)
    requires cfg.lexicon.None?
    ensures |ProposeAll(cfg, first, row, tokens, beam)| == |beam| * |tokens|
  {
    hide ProposeTokens;
    if beam != [] {
      var n := |beam| - 1;
      ProposalCount(cfg, first, row, tokens, beam[..n]);
      FreeTokens(cfg, first, row, tokens, beam[n], n);
      assert |beam| * |tokens| == n * |tokens| + |tokens|;
    }
  }

  lemma {:induction false} FinalCount(cfg: Config, beam: seq<Node>)
    ensures |ProposeFinals(cfg, false, beam)| == |beam|
  {
    if beam != [] { FinalCount(cfg, beam[..|beam| - 1]); }
  }

  /** The considered tokens are all of them. */
  lemma FrameOfAll(cfg: Config, N: nat, first: bool, row: seq<real>, beam: seq<Node>, out: seq<Node>)
    requires FrameStep(cfg, first, row, beam, out) && |row| == N <= cfg.beamSizeToken
    ensures Stored(cfg.merge, cfg.beamSize, cfg.threshold, ProposeAll(cfg, first, row, seq(N, i => i), beam), false,
                   out)
  {
    hide Stored, ProposeAll;
  }

  /** At most one hypothesis per label sequence. */
  lemma {:induction false} BeamCount(cfg: Config, N: nat, rows: seq<seq<real>>, m: Machine, t: nat)
    requires cfg.lexicon.None? && Steps(cfg, Begin(cfg), rows, m) && t <= |rows|
    requires N <= cfg.beamSizeToken && forall u :: 0 <= u < |rows| ==> |rows[u]| == N
    ensures |m.beams[t]| <= Power(N, t)
  {
    hide FrameStep, Stored, ProposeAll;
    if t == 0 {
      assert m.beams[0] == m.beams[..1][0] == Begin(cfg).beams[0];
    } else {
      BeamCount(cfg, N, rows, m, t - 1);
      var row, beam, out := rows[t - 1], m.beams[t - 1], m.beams[t];
      assert StepAt(cfg, Begin(cfg), rows, m.beams, t - 1);
      FrameOfAll(cfg, N, t == 1, row, beam, out);
      StoredSize(cfg.merge, cfg.beamSize, cfg.threshold, ProposeAll(cfg, t == 1, row, seq(N, i => i), beam), false,
                 out);
      ProposalCount(cfg, t == 1, row, seq(N, i => i), beam);
      Grows(|beam|, Power(N, t - 1), N);
    }
  }

  lemma Grows(a: nat, b: nat, n: nat)
    requires a <= b
    ensures a * n <= n * b
  {
    assert (b - a) * n >= 0;
  }

  /** A proposal scores the objective of some label sequence. */
  lemma ProposalMeans(cfg: Config, N: nat, rows: seq<seq<real>>, m: Machine, t: nat, p: Node) returns (tokens: seq<int>)
    requires cfg.lexicon.None? && cfg.merge == TakeMax && Sound(m) && Steps(cfg, Begin(cfg), rows, m) && t < |rows|
    requires N <= cfg.beamSizeToken && forall u :: 0 <= u < |rows| ==> |rows[u]| == N
    requires p in ProposeAll(cfg, t == 0, rows[t], seq(N, i => i), m.beams[t])
    ensures |tokens| == t + 1 && Below(tokens, N) && p.score == FreeObjective(cfg, rows, tokens)
  {
    hide FreeObjective, StandsAt, ProposeAll, ProposeFrom, ProposeFree, StepAt, Gain, Chained;
    var all := seq(N, i => i);
    ProposedBy(cfg, t == 0, rows[t], all, m.beams[t], p);
    var before := FreeMeaning(cfg, rows, m, t, p.parent);
    var n := FreeFrom(cfg, t == 0, rows[t], all, m.beams[t][p.parent], p.parent, p);
    ProposeGains(cfg, rows, before, m.beams[t][p.parent], p.parent, n);
    ObjectiveSnoc(cfg, rows, before, n);
    tokens := before + [n];
  }

  lemma AmpleFrame(cfg: Config, N: nat, rows: seq<seq<real>>, m: Machine, t: nat)
    requires cfg.lexicon.None? && cfg.merge == TakeMax && Sound(m) && Steps(cfg, Begin(cfg), rows, m) && t < |rows|
    requires Ample(cfg, N, rows)
    ensures Lossless(cfg.beamSize, cfg.threshold, ProposeAll(cfg, t == 0, rows[t], seq(N, i => i), m.beams[t]))
  {
    hide FreeObjective, ProposeAll, StepAt, Chained, Power;
    var proposals := ProposeAll(cfg, t == 0, rows[t], seq(N, i => i), m.beams[t]);
    BeamCount(cfg, N, rows, m, t);
    ProposalCount(cfg, t == 0, rows[t], seq(N, i => i), m.beams[t]);
    Grows(|m.beams[t]|, Power(N, t), N);
    PowerNext(N, t);
    forall i, j | 0 <= i < |proposals| && 0 <= j < |proposals|
      ensures proposals[i].score >= proposals[j].score - cfg.threshold {
      var a := ProposalMeans(cfg, N, rows, m, t, proposals[i]);
      var b := ProposalMeans(cfg, N, rows, m, t, proposals[j]);
      assert Comparable(N, rows, a, b);
    }
  }

  lemma PowerNext(N: nat, t: nat)
    ensures Power(N, t + 1) == N * Power(N, t)
  {
  }

  /** With such parameters no frame drops a candidate. */
  lemma AmpleIsLossless(cfg: Config, N: nat, rows: seq<seq<real>>, m: Machine)
    requires cfg.lexicon.None? && cfg.merge == TakeMax && Sound(m) && Steps(cfg, Begin(cfg), rows, m)
    requires Ample(cfg, N, rows)
    ensures LosslessRun(cfg, N, rows, m)
  {
    hide Lossless, FreeObjective, ProposeAll, StepAt, Power;
    forall t | 0 <= t < |rows|
      ensures Lossless(cfg.beamSize, cfg.threshold, ProposeAll(cfg, t == 0, rows[t], seq(N, i => i), m.beams[t]))
    {
      AmpleFrame(cfg, N, rows, m, t);
    }
  }

  lemma AmpleEndIsLossless(cfg: Config, N: nat, rows: seq<seq<real>>, m: Machine)
    requires cfg.lexicon.None? && cfg.merge == TakeMax && Sound(m) && Steps(cfg, Begin(cfg), rows, m)
    requires Ample(cfg, N, rows) && AmpleEnd(cfg, N, rows)
    ensures Lossless(cfg.beamSize, cfg.threshold, ProposeFinals(cfg, false, m.beams[|rows|]))
  {
    hide FreeObjective, FinishedObjective, ProposeFinals, StepAt, Chained, Power, StandsAt;
    var beam := m.beams[|rows|];
    var proposals := ProposeFinals(cfg, false, beam);
    BeamCount(cfg, N, rows, m, |rows|);
    FinalCount(cfg, beam);
    forall i, j | 0 <= i < |proposals| && 0 <= j < |proposals|
      ensures proposals[i].score >= proposals[j].score - cfg.threshold {
      var a := EndMeans(cfg, N, rows, m, proposals[i]);
      var b := EndMeans(cfg, N, rows, m, proposals[j]);
      assert Comparable(N, rows, a, b);
    }
  }

  lemma EndMeans(cfg: Config, N: nat, rows: seq<seq<real>>, m: Machine, p: Node) returns (tokens: seq<int>)
    requires cfg.lexicon.None? && cfg.merge == TakeMax && Sound(m) && Steps(cfg, Begin(cfg), rows, m)
    requires (forall u :: 0 <= u < |rows| ==> |rows[u]| == N) && p in ProposeFinals(cfg, false, m.beams[|rows|])
    ensures |tokens| == |rows| && Below(tokens, N) && p.score == FinishedObjective(cfg, rows, tokens)
  {
    hide FreeObjective, FinishedObjective, ProposeFinals, StepAt, Chained, StandsAt;
    var beam := m.beams[|rows|];
    FinalBy(cfg, false, beam, p);
    tokens := FreeMeaning(cfg, rows, m, |rows|, p.parent);
    FinalMeans(cfg, rows, tokens, beam[p.parent], p.parent);
  }

  // ---- There always are such parameters

  predicate Within(x: real, bound: real) {
    -bound <= x <= bound
  }

  /** A bound on f over the extensions of a prefix by k labels. */
  lemma {:induction false} Bounded(f: seq<int> -> real, N: nat, prefix: seq<int>, k: nat) returns (bound: real)
    ensures bound >= 0.0
    ensures forall s: seq<int> :: |s| == |prefix| + k && Below(s, N) && prefix <= s ==> Within(f(s), bound)
    decreases k
  {
    if k == 0 {
      bound := if f(prefix) >= 0.0 then f(prefix) else -f(prefix);
      forall s: seq<int> | |s| == |prefix| && Below(s, N) && prefix <= s ensures Within(f(s), bound) {
        assert s == prefix;
      }
    } else {
      bound := 0.0;
      for c := 0 to N
        invariant bound >= 0.0
        invariant forall s: seq<int> :: |s| == |prefix| + k && Below(s, N) && prefix <= s && s[|prefix|] < c ==>
          Within(f(s), bound)
      {
        var b := Bounded(f, N, prefix + [c], k - 1);
        forall s: seq<int> | |s| == |prefix| + k && Below(s, N) && prefix <= s && s[|prefix|] == c
          ensures Within(f(s), b) {
          assert s[..|prefix| + 1] == prefix + [c];
        }
        bound := if b > bound then b else bound;
      }
    }
  }

  /** One bound for all lengths up to n. */
  lemma BoundedUpTo(f: seq<int> -> real, N: nat, n: nat) returns (bound: real)
    ensures bound >= 0.0 && forall s: seq<int> :: |s| <= n && Below(s, N) ==> Within(f(s), bound)
  {
    bound := 0.0;
    for t := 0 to n + 1
      invariant bound >= 0.0 && forall s: seq<int> :: |s| < t && Below(s, N) ==> Within(f(s), bound)
    {
      var b := Bounded(f, N, [], t);
      bound := if b > bound then b else bound;
    }
  }

  lemma PowersWithin(N: nat, n: nat) returns (K: nat)
    ensures forall t: nat :: t <= n ==> Power(N, t) <= K
  {
    K := 0;
    for t := 0 to n + 1
      invariant forall u: nat :: u < t ==> Power(N, u) <= K
    {
      K := if Power(N, t) > K then Power(N, t) else K;
    }
  }

  function Widened(cfg: Config, K: nat, tokens: nat, threshold: real): Config {
    cfg.(beamSize := K, beamSizeToken := tokens, threshold := threshold)
  }

  /** The objective does not depend on the sizes of the search. */
  lemma SameObjective(cfg: Config, K: nat, n: nat, threshold: real, rows: seq<seq<real>>, tokens: seq<int>)
    ensures var wide := Widened(cfg, K, n, threshold);
      && FreeObjective(wide, rows, tokens) == FreeObjective(cfg, rows, tokens)
      && FinishedObjective(wide, rows, tokens) == FinishedObjective(cfg, rows, tokens)
  {
    hide Viterbi.Score, Uniq, Collapse, LmScore, LmState, Count, DecoderScore.Times;
    var wide := Widened(cfg, K, n, threshold);
    assert Said(wide, tokens) == Said(cfg, tokens);
  }

  /** For any decoder and any frames, some sizes are large enough. */
  lemma AmpleExists(cfg: Config, N: nat, rows: seq<seq<real>>) returns (wide: Config)
    requires forall t :: 0 <= t < |rows| ==> |rows[t]| == N
    ensures wide == Widened(cfg, wide.beamSize, wide.beamSizeToken, wide.threshold)
    ensures Ample(wide, N, rows) && AmpleEnd(wide, N, rows)
  {
    hide FreeObjective, FinishedObjective, Power;
    var f: seq<int> -> real := s => FreeObjective(cfg, rows, s);
    var g: seq<int> -> real := s => FinishedObjective(cfg, rows, s);
    var b := BoundedUpTo(f, N, |rows|);
    var c := BoundedUpTo(g, N, |rows|);
    var K := PowersWithin(N, |rows|);
    var threshold := 2.0 * b + 2.0 * c;
    wide := Widened(cfg, K, N, threshold);
    forall x, y | Comparable(N, rows, x, y)
      ensures FreeObjective(wide, rows, x) >= FreeObjective(wide, rows, y) - threshold {
      SameObjective(cfg, K, N, threshold, rows, x);
      SameObjective(cfg, K, N, threshold, rows, y);
      assert Within(f(x), b) && Within(f(y), b);
    }
    forall x, y | Comparable(N, rows, x, y) && |x| == |rows|
      ensures FinishedObjective(wide, rows, x) >= FinishedObjective(wide, rows, y) - threshold
    {
      SameObjective(cfg, K, N, threshold, rows, x);
      SameObjective(cfg, K, N, threshold, rows, y);
      assert Within(g(x), c) && Within(g(y), c);
    }
  }

  // ---- The decoder is exact

  /** With parameters large enough, the best hypothesis passed labels that maximise the
      objective over all label sequences. */
  lemma FreeIsExact(cfg: Config, N: nat, rows: seq<seq<real>>, m: Machine, b: int) returns (best: seq<int>)
    requires cfg.lexicon.None? && cfg.merge == TakeMax && Sound(m) && Steps(cfg, Begin(cfg), rows, m)
    requires Ample(cfg, N, rows) && IsFirstBest(m.beams[|rows|], b)
    ensures best == Tokens(Chain(m.beams, |rows|, b)) && |best| == |rows| && Below(best, N)
    ensures m.beams[|rows|][b].score == FreeObjective(cfg, rows, best)
    ensures forall tokens: seq<int> :: |tokens| == |rows| && Below(tokens, N) ==>
              FreeObjective(cfg, rows, tokens) <= FreeObjective(cfg, rows, best)
  {
    hide FreeObjective, LosslessRun, StepAt, Chain, Ample, Chained;
    AmpleIsLossless(cfg, N, rows, m);
    best := LosslessIsExact(cfg, N, rows, m, b);
  }

  /** With parameters large enough, the first final hypothesis maximises the objective of
      whole utterances over all label sequences. */
  lemma FreeDecodeIsExact(cfg: Config, N: nat, rows: seq<seq<real>>, m: Machine, m': Machine) returns (best: seq<int>)
    requires cfg.lexicon.None? && cfg.merge == TakeMax && N >= 1 && Ample(cfg, N, rows) && AmpleEnd(cfg, N, rows)
    requires Sound(m) && Steps(cfg, Begin(cfg), rows, m) && Ends(cfg, m, m')
    ensures m'.beams[|rows| + 1] != [] && IsRef(m.beams, |rows|, m'.beams[|rows| + 1][0].parent)
    ensures best == Tokens(Chain(m.beams, |rows|, m'.beams[|rows| + 1][0].parent)) && |best| == |rows| && Below(best, N)
    ensures m'.beams[|rows| + 1][0].score == FinishedObjective(cfg, rows, best)
    ensures forall tokens: seq<int> :: |tokens| == |rows| && Below(tokens, N) ==>
              FinishedObjective(cfg, rows, tokens) <= FinishedObjective(cfg, rows, best)
  {
    hide FinishedObjective, LosslessRun, Lossless, StepAt, Chain, Ample, AmpleEnd, ProposeFinals, FinalStep, Chained;
    AmpleIsLossless(cfg, N, rows, m);
    AmpleEndIsLossless(cfg, N, rows, m);
    best := LosslessDecodeIsExact(cfg, N, rows, m, m');
  }

  /** ASG with a zero language model: the best hypothesis is a best Viterbi path. */
  lemma FreeIsViterbi(cfg: Config, N: nat, rows: seq<seq<real>>, m: Machine, b: int) returns (best: seq<int>)
    requires cfg.lexicon.None? && cfg.merge == TakeMax && Sound(m) && Steps(cfg, Begin(cfg), rows, m)
    requires Ample(cfg, N, rows) && IsFirstBest(m.beams[|rows|], b)
    requires cfg.criterion == ASG && ZeroLm(cfg.lm) && cfg.silScore == 0.0
    ensures best == Tokens(Chain(m.beams, |rows|, b)) && |best| == |rows| && Below(best, N)
    ensures forall tokens: seq<int> :: |tokens| == |rows| && Below(tokens, N) ==>
              Viterbi.Score(rows, cfg.trans, tokens) <= Viterbi.Score(rows, cfg.trans, best)
  {
    hide FreeObjective, Ample, Steps, Viterbi.Score, Chain;
    best := FreeIsExact(cfg, N, rows, m, b);
    ObjectiveIsViterbi(cfg, rows, best);
    forall tokens: seq<int> | |tokens| == |rows| && Below(tokens, N)
      ensures Viterbi.Score(rows, cfg.trans, tokens) <= Viterbi.Score(rows, cfg.trans, best)
    {
      ObjectiveIsViterbi(cfg, rows, tokens);
    }
  }
}
