/** The lexicon and lexicon-free decoders as one object: they share everything but
    what they propose. */
module BeamDecoders {
  import opened Scores
  import opened Wrappers
  import opened Candidates
  import opened BeamStore
  import opened StoreMethods
  import opened Decoder
  import opened History
  import opened Online
  import opened TokenOrder

  /** Frames 0 to n. */
  function FramesOf(hyp: map<int, seq<Node>>, n: nat): (beams: seq<seq<Node>>)
    requires forall k :: 0 <= k <= n ==> k in hyp
    ensures |beams| == n + 1 && forall k :: 0 <= k <= n ==> beams[k] == hyp[k]
  {
    seq(n + 1, k requires 0 <= k <= n => hyp[k])
  }

  class BeamDecoder {
    const cfg: Config
    var hyp: map<int, seq<Node>>
    var nDecodedFrames: int
    var nPrunedFrames: int
    var candidates: Added    // the candidates of the frame and the best score among them

    ghost predicate Held()
      reads this
    {
      0 <= nPrunedFrames <= nDecodedFrames && forall k :: 0 <= k <= nDecodedFrames - nPrunedFrames ==> k in hyp
    }

    /** The frames in use; hyp may hold stale frames after them. */
    function Frames(): (beams: seq<seq<Node>>)
      requires Held()
      reads this
    {
      FramesOf(hyp, nDecodedFrames - nPrunedFrames)
    }

    ghost function View(): Machine
      requires Held()
      reads this
    {
      Machine(Frames(), nDecodedFrames, nPrunedFrames)
    }

    ghost predicate Valid()
      reads this
    {
      Held() && Sound(View())
    }

    constructor (cfg: Config)
      ensures this.cfg == cfg && Valid() && View() == Begin(cfg)
    {
      this.cfg := cfg;
      hyp := map[0 := [Node(cfg.lm.start, 0, -1, 0.0, cfg.sil, -1, false)]];
      nDecodedFrames, nPrunedFrames := 0, 0;
      candidates := Added(None, []);
      new;
      BeginSound(cfg);
      assert View().beams == Begin(cfg).beams;
    }

    method DecodeBegin()
      modifies this
      ensures Valid() && View() == Begin(cfg)
    {
      hyp := map[0 := [Node(cfg.lm.start, 0, -1, 0.0, cfg.sil, -1, false)]];
      nDecodedFrames, nPrunedFrames := 0, 0;
      BeginSound(cfg);
      assert View().beams == Begin(cfg).beams;
    }

    // ---- Proposing

    method CandidatesReset()
      modifies `candidates
      ensures candidates == AddAll([], cfg.threshold)
    {
      candidates := Added(None, []);
    }

    method CandidatesAdd(x: Node, ghost before: seq<Node>)
      requires candidates == AddAll(before, cfg.threshold)
      modifies `candidates
      ensures candidates == AddAll(before + [x], cfg.threshold)
    {
      AddAllSnoc(before, x, cfg.threshold);
      var best, valid := IsValidCandidate(candidates.best, x.score, cfg.threshold);
      candidates := Added(best, if valid then candidates.kept + [x] else candidates.kept);
    }

    method AcousticScore(first: bool, row: seq<real>, h: Node, n: int) returns (score: real)
      ensures score == h.score + AcousticStep(cfg, first, row, h.token, n)
    {
      score := h.score + Emission(row, n);
      if !first && cfg.criterion == ASG { score := score + At(cfg.trans, n, h.token); }
      if n == cfg.sil { score := score + cfg.silScore; }
    }

    method ExtendFree(first: bool, row: seq<real>, h: Node, j: int, n: int, ghost before: seq<Node>)
      requires candidates == AddAll(before, cfg.threshold)
      modifies `candidates
      ensures candidates == AddAll(before + [ProposeFree(cfg, first, row, h, j, n)], cfg.threshold)
    {
      hide AddAll, AcousticStep;
      var score := AcousticScore(first, row, h, n);
      if (cfg.criterion == ASG && n != h.token)
        || (cfg.criterion == CTC && n != cfg.blank && (n != h.token || h.prevBlank)) {
        var (state, lmScore) := cfg.lm.score(h.lm, n);
        score := score + Weighted(cfg, lmScore);
        CandidatesAdd(Node(state, 0, j, score, n, -1, false), before);
      } else if cfg.criterion == CTC && n == cfg.blank {
        CandidatesAdd(Node(h.lm, 0, j, score, n, -1, true), before);
      } else {
        CandidatesAdd(Node(h.lm, 0, j, score, n, -1, false), before);
      }
    }

    method AddWord(lexicon: seq<TrieNode>, score: real, h: Node, j: int, n: int, word: int, bonus: real,
                   ghost before: seq<Node>)
      requires candidates == AddAll(before, cfg.threshold)
      modifies `candidates
      ensures candidates == AddAll(before + [ProposeWord(cfg, lexicon, score, h, j, n, word, bonus)], cfg.threshold)
    {
      hide AddAll, Smear, Weighted;
      var (state, lmScore) := cfg.lm.score(h.lm, if cfg.isLmToken then n else word);
      if !cfg.isLmToken { lmScore := lmScore - Smear(lexicon, h.lex); }
      CandidatesAdd(Node(state, 0, j, score + Weighted(cfg, lmScore) + bonus, n, word, false), before);
    }

    method AddWords(lexicon: seq<TrieNode>, score: real, h: Node, j: int, n: int, labels: seq<int>,
                    ghost before: seq<Node>)
      requires candidates == AddAll(before, cfg.threshold)
      modifies `candidates
      ensures candidates == AddAll(before + ProposeWords(cfg, lexicon, score, h, j, n, labels), cfg.threshold)
    {
      hide AddAll, ProposeWord;
      ghost var words := ProposeWords(cfg, lexicon, score, h, j, n, labels);
      assert before + words[..0] == before;
      for i := 0 to |labels|
        invariant candidates == AddAll(before + words[..i], cfg.threshold)
      {
        AddWord(lexicon, score, h, j, n, labels[i], cfg.wordScore, before + words[..i]);
        assert before + words[..i + 1] == before + words[..i] + [words[i]];
      }
      assert words[..|labels|] == words;
    }

    method ExtendLex(lexicon: seq<TrieNode>, first: bool, row: seq<real>, h: Node, j: int, n: int,
                     ghost before: seq<Node>)
      requires candidates == AddAll(before, cfg.threshold)
      modifies `candidates
      ensures candidates == AddAll(before + ProposeLex(cfg, lexicon, first, row, h, j, n), cfg.threshold)
    {
      hide AddAll, AcousticStep, ProposeWord, ProposeWords, Lookup, Smear, Weighted;
      var children := Lookup(lexicon, h.lex).children;
      if n !in children {
        assert before + [] == before;
        return;
      }
      var child := children[n];
      var score := AcousticScore(first, row, h, n);
      ghost var a := ProposeChild(cfg, lexicon, score, h, j, n, child);
      // A new token is eaten.
      if (cfg.criterion != CTC || h.prevBlank || n != h.token) && Lookup(lexicon, child).children != map[] {
        var (state, lmScore) := cfg.lm.score(h.lm, n);
        if !cfg.isLmToken {
          state, lmScore := h.lm, Lookup(lexicon, child).maxScore - Smear(lexicon, h.lex);
        }
        CandidatesAdd(Node(state, child, j, score + Weighted(cfg, lmScore), n, -1, false), before);
      }
      assert before + [] == before;
      assert candidates == AddAll(before + a, cfg.threshold);
      // True words, or an unknown one.
      var labels := Lookup(lexicon, child).labels;
      AddWords(lexicon, score, h, j, n, labels, before + a);
      ghost var b := ProposeWords(cfg, lexicon, score, h, j, n, labels);
      ghost var c := ProposeUnknown(cfg, lexicon, score, h, j, n, labels);
      assert before + (a + b + []) == before + a + b;
      if labels == [] && cfg.unkScore.Some? {
        AddWord(lexicon, score, h, j, n, cfg.unk, cfg.unkScore.value, before + a + b);
      }
      assert before + (a + b + c) == before + a + b + c;
    }

    method ExtendStay(first: bool, row: seq<real>, h: Node, j: int, ghost before: seq<Node>)
      requires candidates == AddAll(before, cfg.threshold)
      modifies `candidates
      ensures candidates == AddAll(before + ProposeStay(cfg, first, row, h, j), cfg.threshold)
    {
      hide AddAll, AcousticStep, Emission;
      ghost var done: seq<Node> := [];
      assert before + done == before;
      if cfg.criterion != CTC || !h.prevBlank {
        var score := AcousticScore(first, row, h, h.token);
        var x := Node(h.lm, h.lex, j, score, h.token, -1, false);
        CandidatesAdd(x, before);
        done := [x];
      }
      if cfg.criterion == CTC {
        var x := Node(h.lm, h.lex, j, h.score + Emission(row, cfg.blank), cfg.blank, -1, true);
        CandidatesAdd(x, before + done);
        assert before + done + [x] == before + (done + [x]);
        done := done + [x];
      }
      assert done == ProposeStay(cfg, first, row, h, j);
    }

    /** Everything proposed from one hypothesis. */
    method Extend(first: bool, row: seq<real>, tokens: seq<int>, h: Node, j: int, ghost before: seq<Node>)
      requires candidates == AddAll(before, cfg.threshold)
      modifies `candidates
      ensures candidates == AddAll(before + ProposeFrom(cfg, first, row, tokens, h, j), cfg.threshold)
    {
      hide AddAll, ProposeFree, ProposeLex, ProposeStay, ProposeTokens;
      TokensNone(cfg, first, row, h, j);
      assert before + [] == before && tokens[..0] == [];
      for r := 0 to |tokens|
        invariant candidates == AddAll(before + ProposeTokens(cfg, first, row, tokens[..r], h, j), cfg.threshold)
      {
        ghost var p := ProposeTokens(cfg, first, row, tokens[..r], h, j);
        match cfg.lexicon {
          case None => ExtendFree(first, row, h, j, tokens[r], before + p);
          case Some(lexicon) => ExtendLex(lexicon, first, row, h, j, tokens[r], before + p);
        }
        TokensNext(cfg, first, row, tokens, r, h, j);
        assert before + p + ProposeToken(cfg, first, row, h, j, tokens[r])
          == before + (p + ProposeToken(cfg, first, row, h, j, tokens[r]));
      }
      assert tokens[..|tokens|] == tokens;
      ghost var p := ProposeTokens(cfg, first, row, tokens, h, j);
      if cfg.lexicon.Some? {
        ExtendStay(first, row, h, j, before + p);
        assert before + p + ProposeStay(cfg, first, row, h, j) == before + (p + ProposeStay(cfg, first, row, h, j));
      } else {
        assert p + [] == p;
      }
    }

    /** One frame: the new beam follows the one given. */
    method DecodeFrame(first: bool, row: seq<real>, beam: seq<Node>) returns (out: seq<Node>)
      modifies `candidates
      ensures FrameStep(cfg, first, row, beam, out)
    {
      hide AddAll, ProposeFrom, ProposeAll, TokenChoice, Stored;
      var tokens := ChooseTokens(row, cfg.beamSizeToken);
      CandidatesReset();
      AllNone(cfg, first, row, tokens);
      assert beam[..0] == [];
      for j := 0 to |beam|
        invariant candidates == AddAll(ProposeAll(cfg, first, row, tokens, beam[..j]), cfg.threshold)
      {
        Extend(first, row, tokens, beam[j], j, ProposeAll(cfg, first, row, tokens, beam[..j]));
        AllNext(cfg, first, row, tokens, beam, j);
      }
      assert beam[..|beam|] == beam;
      out := CandidatesStore(cfg.merge, cfg.beamSize, cfg.threshold, ProposeAll(cfg, first, row, tokens, beam),
                             candidates, false);
    }

    /** A chunk of frames, one beam after the other. */
    method DecodeStep(rows: seq<seq<real>>)
      requires Valid()
      modifies this
      ensures Valid() && Steps(cfg, old(View()), rows, View())
    {
      hide FrameStep, Chained;
      ghost var m := View();
      var startFrame := nDecodedFrames - nPrunedFrames;
      ExtendBuffer(startFrame + |rows| + 2);
      for t := 0 to |rows|
        invariant 0 <= nPrunedFrames <= nDecodedFrames && startFrame == nDecodedFrames - nPrunedFrames
        invariant nDecodedFrames == m.decoded && nPrunedFrames == m.pruned && |m.beams| == startFrame + 1
        invariant forall k :: 0 <= k <= startFrame + |rows| ==> k in hyp
        invariant forall k :: 0 <= k <= startFrame ==> hyp[k] == m.beams[k]
        invariant forall s :: 0 <= s < t ==> Followed(cfg, hyp, nDecodedFrames, startFrame, rows, s)
      {
        ghost var hyp0 := hyp;
        var out := DecodeFrame(nDecodedFrames + t == 0, rows[t], hyp[startFrame + t]);
        hyp := hyp[startFrame + t + 1 := out];
        forall s | 0 <= s < t ensures Followed(cfg, hyp, nDecodedFrames, startFrame, rows, s) {
          assert Followed(cfg, hyp0, nDecodedFrames, startFrame, rows, s);
        }
      }
      nDecodedFrames := nDecodedFrames + |rows|;
      ghost var m' := View();
      forall t | 0 <= t < |rows| ensures StepAt(cfg, m, rows, m'.beams, t) {
        assert Followed(cfg, hyp, m.decoded, startFrame, rows, t);
      }
      StepsSound(cfg, m, rows, m');
    }

    method ExtendBuffer(n: nat)
      requires Valid()
      modifies `hyp
      ensures forall k :: 0 <= k < n ==> k in hyp
      ensures forall k :: k in old(hyp) ==> k in hyp && hyp[k] == old(hyp)[k]
    {
      for i := 0 to n
        invariant forall k :: 0 <= k < i ==> k in hyp
        invariant forall k :: k in old(hyp) ==> k in hyp && hyp[k] == old(hyp)[k]
      {
        if i !in hyp { hyp := hyp[i := []]; }
      }
    }

    method HasNiceEnding(beam: seq<Node>) returns (nice: bool)
      ensures nice == NiceEnding(cfg, beam)
    {
      if cfg.lexicon.None? { return false; }
      for i := 0 to |beam|
        invariant forall j :: 0 <= j < i ==> beam[j].lex != 0
      {
        if beam[i].lex == 0 { return true; }
      }
      return false;
    }

    method DecodeEnd()
      requires Valid()
      modifies this
      ensures Valid() && Ends(cfg, old(View()), View())
    {
      hide AddAll, ProposeFinals, Stored, Chained;
      ghost var m := View();
      var n := nDecodedFrames - nPrunedFrames;
      var beam := hyp[n];
      CandidatesReset();
      var hasNiceEnding := HasNiceEnding(beam);
      FinalsNone(cfg, hasNiceEnding);
      assert beam[..0] == [];
      for i := 0 to |beam|
        invariant candidates == AddAll(ProposeFinals(cfg, hasNiceEnding, beam[..i]), cfg.threshold)
        modifies `candidates
      {
        FinalsNext(cfg, hasNiceEnding, beam, i);
        assert ProposeFinals(cfg, hasNiceEnding, beam[..i]) + [] == ProposeFinals(cfg, hasNiceEnding, beam[..i]);
        if !hasNiceEnding || beam[i].lex == 0 {
          var (state, lmScore) := cfg.lm.finish(beam[i].lm);
          CandidatesAdd(Node(state, beam[i].lex, i, beam[i].score + Weighted(cfg, lmScore), cfg.sil, -1, false),
                        ProposeFinals(cfg, hasNiceEnding, beam[..i]));
        }
      }
      assert beam[..|beam|] == beam;
      var out := CandidatesStore(cfg.merge, cfg.beamSize, cfg.threshold, ProposeFinals(cfg, hasNiceEnding, beam),
                                 candidates, true);
      hyp := hyp[n + 1 := out];
      nDecodedFrames := nDecodedFrames + 1;
      assert View().beams[..|m.beams|] == m.beams;
      EndsSound(cfg, m, View());
    }

    /** The best completed hypothesis lookBack frames before the last, or the empty result. */
    method GetBestHypothesis(lookBack: int) returns (result: DecodeResult)
      requires Valid()
      ensures BestBack(cfg, Frames(), lookBack, result)
    {
      hide Ancestor, ReadBack, LookBack, CompleteAt, Chained;
      var k := nDecodedFrames - nPrunedFrames;
      if cfg.lexicon.Some? && k - lookBack < 1 { return DecodeResult(0.0, [], []); }
      var node, n; ghost var b;
      node, n, b := FindBestAncestor(cfg, Frames(), lookBack);
      result := GetHypothesis(Frames(), node, k - n);
      assert Frames()[k] != [] ==> ReadsBack(cfg, Frames(), lookBack, b, result);
    }

    method Prune(lookBack: int)
      requires Valid()
      modifies this
      ensures Valid() && Prunes(cfg, old(View()), lookBack, View())
    {
      hide Chained, LookBack, Ancestor, Dropped, CompleteAt;
      ghost var m := View();
      var k := nDecodedFrames - nPrunedFrames;
      if k - lookBack < 1 { return; }
      var beams := Frames();
      var node, n; ghost var b;
      node, n, b := FindBestAncestor(cfg, beams, lookBack);
      if node.Null? {
        if beams[k] != [] { assert PrunesFrom(cfg, m, lookBack, b, m); }
        return;
      }
      if k - n < 1 {
        assert PrunesFrom(cfg, m, lookBack, b, m);
        return;
      }
      PruneAndNormalize(k - n, n, b);
      nPrunedFrames := nDecodedFrames - n;
      assert View().beams == Dropped(m.beams, k - n, m.beams[k][b].score);
      assert PrunesFrom(cfg, m, lookBack, b, View());
      PrunesSound(cfg, m, lookBack, View());
    }

    /** Swap the kept frames to the front, cut their parents, subtract the best score of the last. */
    method PruneAndNormalize(start: int, lookBack: int, ghost b: int)
      requires 1 <= start && 0 <= lookBack && forall k :: 0 <= k <= start + lookBack ==> k in hyp
      requires IsFirstBest(hyp[start + lookBack], b)
      modifies `hyp
      ensures forall k :: 0 <= k <= lookBack ==> k in hyp
      ensures FramesOf(hyp, lookBack)
        == Dropped(FramesOf(old(hyp), start + lookBack), start, old(hyp)[start + lookBack][b].score)
    {
      ghost var hyp0 := hyp;
      MoveToFront(start, lookBack);
      hyp := hyp[0 := Orphaned(hyp[0])];
      var last := hyp[lookBack];
      var largest := LargestScore(last, b);
      hyp := hyp[lookBack := Shift(last, -largest)];
      ghost var d := Dropped(FramesOf(hyp0, start + lookBack), start, largest);
      forall k | 0 <= k <= lookBack ensures hyp[k] == d[k] {
        assert FramesOf(hyp0, start + lookBack)[start..][k] == hyp0[start + k];
      }
    }

    method MoveToFront(start: int, lookBack: int)
      requires 1 <= start && 0 <= lookBack && forall k :: 0 <= k <= start + lookBack ==> k in hyp
      modifies `hyp
      ensures forall k :: 0 <= k <= lookBack ==> k in hyp && hyp[k] == old(hyp)[start + k]
    {
      for i := 0 to lookBack + 1
        invariant forall k :: 0 <= k <= start + lookBack ==> k in hyp
        invariant forall k :: 0 <= k < i ==> hyp[k] == old(hyp)[start + k]
        invariant forall k :: start + i <= k <= start + lookBack ==> hyp[k] == old(hyp)[k]
      {
        hyp := hyp[i := hyp[i + start]][i + start := hyp[i]];
      }
    }
  }

  method LargestScore(beam: seq<Node>, ghost b: int) returns (largest: real)
    requires 0 <= b < |beam| && forall i :: 0 <= i < |beam| ==> beam[i].score <= beam[b].score
    ensures largest == beam[b].score
  {
    largest := beam[0].score;
    for i := 1 to |beam|
      invariant largest <= beam[b].score && forall j :: 0 <= j < i ==> beam[j].score <= largest
    {
      if largest < beam[i].score { largest := beam[i].score; }
    }
  }

  /** The result is read back from the ancestor found for the first best hypothesis b. */
  ghost predicate ReadsBack(cfg: Config, beams: seq<seq<Node>>, lookBack: int, b: int, result: DecodeResult)
    requires Chained(beams) && IsRef(beams, |beams| - 1, b)
  {
    var k, n := |beams| - 1, LookBack(cfg, beams, b, lookBack);
    if n > k then result == DecodeResult(0.0, [], [])
    else ReadBack(beams, k - n, Ancestor(beams, k, b, k - n), result)
  }

  ghost predicate BestBack(cfg: Config, beams: seq<seq<Node>>, lookBack: int, result: DecodeResult)
    requires Chained(beams)
  {
    var k := |beams| - 1;
    if beams[k] == [] || (cfg.lexicon.Some? && k - lookBack < 1) then result == DecodeResult(0.0, [], [])
    else exists b :: IsFirstBest(beams[k], b) && ReadsBack(cfg, beams, lookBack, b, result)
  }

  /** Frame s of a chunk followed the frame before it. */
  ghost predicate Followed(cfg: Config, hyp: map<int, seq<Node>>, decoded: int, startFrame: int, rows: seq<seq<real>>,
                           s: int)
    requires 0 <= s < |rows| && startFrame + s in hyp && startFrame + s + 1 in hyp
  {
    FrameStep(cfg, decoded + s == 0, rows[s], hyp[startFrame + s], hyp[startFrame + s + 1])
  }

  lemma FinalsNone(cfg: Config, nice: bool)
    ensures ProposeFinals(cfg, nice, []) == []
  {
  }

  lemma FinalsNext(cfg: Config, nice: bool, beam: seq<Node>, j: int)
    requires 0 <= j < |beam|
    ensures ProposeFinals(cfg, nice, beam[..j + 1])
      == ProposeFinals(cfg, nice, beam[..j])
        + (if !nice || beam[j].lex == 0 then [ProposeFinal(cfg, beam[j], j)] else [])
  {
    hide ProposeFinal;
    assert beam[..j + 1][..j] == beam[..j];
  }

  lemma TokensNone(cfg: Config, first: bool, row: seq<real>, h: Node, j: int)
    ensures ProposeTokens(cfg, first, row, [], h, j) == []
  {
  }

  lemma TokensNext(cfg: Config, first: bool, row: seq<real>, tokens: seq<int>, r: int, h: Node, j: int)
    requires 0 <= r < |tokens|
    ensures ProposeTokens(cfg, first, row, tokens[..r + 1], h, j)
      == ProposeTokens(cfg, first, row, tokens[..r], h, j) + ProposeToken(cfg, first, row, h, j, tokens[r])
  {
    hide ProposeToken;
    assert tokens[..r + 1][..r] == tokens[..r];
  }

  lemma AllNone(cfg: Config, first: bool, row: seq<real>, tokens: seq<int>)
    ensures ProposeAll(cfg, first, row, tokens, []) == []
  {
  }

  lemma AllNext(cfg: Config, first: bool, row: seq<real>, tokens: seq<int>, beam: seq<Node>, j: int)
    requires 0 <= j < |beam|
    ensures ProposeAll(cfg, first, row, tokens, beam[..j + 1])
      == ProposeAll(cfg, first, row, tokens, beam[..j]) + ProposeFrom(cfg, first, row, tokens, beam[j], j)
  {
    hide ProposeFrom;
    assert beam[..j + 1][..j] == beam[..j];
  }
}
