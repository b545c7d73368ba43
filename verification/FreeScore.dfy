/** The lexicon-free decoder: what its scores mean, and when it is exact. */
module FreeScore {
  import opened Scores
  import opened Transforms
  import opened Candidates
  import opened Decoder
  import opened DecoderScore

  // ---- What a frame labeling says

  /** Decoding starts on a silence that is not scored. */
  function LeadIn(cfg: Config): seq<int> {
    if cfg.criterion == CTC && cfg.sil == cfg.blank then [] else [cfg.sil]
  }

  /** Runs merged, and blanks erased for CTC. */
  function Spelled(cfg: Config, tokens: seq<int>): seq<int> {
    if cfg.criterion == ASG then Uniq([cfg.sil] + tokens) else Collapse([cfg.sil] + tokens, cfg.blank)
  }

  lemma SpelledSnoc(cfg: Config, tokens: seq<int>, n: int)
    ensures Spelled(cfg, tokens + [n])
      == if n == LastToken(cfg, tokens) || (cfg.criterion == CTC && n == cfg.blank) then Spelled(cfg, tokens)
         else Spelled(cfg, tokens) + [n]
  {
    var s := [cfg.sil] + tokens;
    assert s + [n] == [cfg.sil] + (tokens + [n]);
    UniqSnoc(s, n);
    CollapseSnoc(s, n, cfg.blank);
  }

  function LastToken(cfg: Config, tokens: seq<int>): int {
    if tokens == [] then cfg.sil else tokens[|tokens| - 1]
  }

  lemma SpelledNone(cfg: Config)
    ensures Spelled(cfg, []) == LeadIn(cfg)
  {
    assert [cfg.sil] + [] == [cfg.sil];
    assert Uniq([cfg.sil]) == [cfg.sil];
    EraseSnoc([], cfg.sil, cfg.blank);
    assert [] + [cfg.sil] == [cfg.sil];
  }

  lemma {:induction false} SpelledLead(cfg: Config, tokens: seq<int>)
    ensures LeadIn(cfg) <= Spelled(cfg, tokens)
  {
    if tokens == [] {
      SpelledNone(cfg);
    } else {
      var n := |tokens| - 1;
      SpelledLead(cfg, tokens[..n]);
      SpelledSnoc(cfg, tokens[..n], tokens[n]);
      assert tokens[..n] + [tokens[n]] == tokens;
    }
  }

  /** The transcription the language model sees. */
  ghost function Said(cfg: Config, tokens: seq<int>): seq<int> {
    SpelledLead(cfg, tokens);
    Spelled(cfg, tokens)[|LeadIn(cfg)|..]
  }

  ghost predicate Eats(cfg: Config, tokens: seq<int>, n: int) {
    n != LastToken(cfg, tokens) && (cfg.criterion == CTC ==> n != cfg.blank)
  }

  lemma SaidSnoc(cfg: Config, tokens: seq<int>, n: int)
    ensures Said(cfg, tokens + [n]) == if Eats(cfg, tokens, n) then Said(cfg, tokens) + [n] else Said(cfg, tokens)
  {
    hide Spelled;
    SpelledSnoc(cfg, tokens, n);
    SpelledLead(cfg, tokens);
  }

  lemma SaidNone(cfg: Config)
    ensures Said(cfg, []) == []
  {
    hide Spelled;
    SpelledNone(cfg);
  }

  // ---- The objective

  /** Acoustic score, silence, and language model of what is said. */
  ghost function FreeObjective(cfg: Config, rows: seq<seq<real>>, tokens: seq<int>): real {
    Acoustic(cfg, rows, tokens) + DecoderScore.Times(Count(tokens, cfg.sil), cfg.silScore)
      + cfg.lmWeight * LmScore(cfg.lm, Said(cfg, tokens))
  }

  /** h stands where the frame labeling leads. */
  ghost predicate StandsAt(cfg: Config, tokens: seq<int>, h: Node) {
    && h.lm == LmState(cfg.lm, Said(cfg, tokens)) && h.lex == 0 && h.token == LastToken(cfg, tokens)
    && h.prevBlank == (tokens != [] && cfg.criterion == CTC && h.token == cfg.blank)
  }

  /** What one more token adds to the objective. */
  ghost function Gain(cfg: Config, rows: seq<seq<real>>, tokens: seq<int>, n: int): real
    requires |tokens| < |rows|
  {
    AcousticStep(cfg, tokens == [], rows[|tokens|], LastToken(cfg, tokens), n)
    + if Eats(cfg, tokens, n) then Weighted(cfg, cfg.lm.score(LmState(cfg.lm, Said(cfg, tokens)), n).1) else 0.0
  }

  lemma ObjectiveSnoc(cfg: Config, rows: seq<seq<real>>, tokens: seq<int>, n: int)
    requires |tokens| < |rows|
    ensures FreeObjective(cfg, rows, tokens + [n]) == FreeObjective(cfg, rows, tokens) + Gain(cfg, rows, tokens, n)
  {
    hide Acoustic, DecoderScore.Times, Count, Weighted, LmScore, LmState, Said, Eats, Emission, At;
    AcousticSnoc(cfg, rows, tokens, LastToken(cfg, tokens), n);
    CountSnoc(tokens, n, cfg.sil);
    TimesNext(Count(tokens, cfg.sil), cfg.silScore);
    SaidSnoc(cfg, tokens, n);
    var said := Said(cfg, tokens);
    LmSnoc(cfg.lm, said, n);
    var l, more := LmScore(cfg.lm, said), cfg.lm.score(LmState(cfg.lm, said), n).1;
    WeightedAdd(cfg, l, more);
    WeightedIs(cfg, l);
    WeightedIs(cfg, l + more);
  }

  /** Proposing a token follows the labeling and adds exactly its gain. */
  lemma ProposeGains(cfg: Config, rows: seq<seq<real>>, tokens: seq<int>, h: Node, j: int, n: int)
    requires |tokens| < |rows| && StandsAt(cfg, tokens, h)
    ensures var x := ProposeFree(cfg, tokens == [], rows[|tokens|], h, j, n);
            StandsAt(cfg, tokens + [n], x) && x.score == h.score + Gain(cfg, rows, tokens, n)
  {
    hide AcousticStep, Said, LmState, LmScore, Weighted;
    SaidSnoc(cfg, tokens, n);
    if Eats(cfg, tokens, n) {
      LmSnoc(cfg.lm, Said(cfg, tokens), n);
      assert ProposeFree(cfg, tokens == [], rows[|tokens|], h, j, n).lm == cfg.lm.score(h.lm, n).0;
    } else {
      assert ProposeFree(cfg, tokens == [], rows[|tokens|], h, j, n).lm == h.lm;
    }
  }
}
