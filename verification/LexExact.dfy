/** The decoder with a lexicon over whole utterances: with sizes large enough it finds a
    best chain among all the lexicon allows. */
module LexExact {
  import opened Wrappers
  import opened Candidates
  import opened BeamStore
  import opened Decoder
  import opened History
  import opened Online
  import opened DecoderScore
  import opened LexiconSpelling
  import Free = FreeExact

  // ---- The chains a lexicon allows

  /** x may follow h: legal, on one of N tokens, and into a child only where the trie goes on. */
  ghost predicate Follows(cfg: Config, lexicon: seq<TrieNode>, N: nat, h: Node, x: Node) {
    Legal(cfg, lexicon, h, x) && Enters(lexicon, N, h, x)
  }

  ghost predicate Enters(lexicon: seq<TrieNode>, N: nat, h: Node, x: Node) {
    && (x.word != -1 || x.lex != h.lex ==> 0 <= x.token < N)
    && (x.word == -1 && x.lex != h.lex ==> Lookup(lexicon, x.lex).children != map[])
  }

  /** The same apart from score, parent and language-model state. */
  predicate SameMove(a: Node, b: Node) {
    a.token == b.token && a.word == b.word && a.lex == b.lex && a.prevBlank == b.prevBlank
  }

  predicate SameMoves(a: seq<Node>, b: seq<Node>) {
    |a| == |b| && forall k :: 0 <= k < |a| ==> SameMove(a[k], b[k])
  }

  ghost function Root(cfg: Config): Node {
    Begin(cfg).beams[0][0]
  }

  /** A way through the lexicon, whatever its scores. */
  ghost predicate IsChain(cfg: Config, lexicon: seq<TrieNode>, N: nat, path: seq<Node>) {
    && path != [] && SameMove(path[0], Root(cfg))
    && forall k :: 1 <= k < |path| ==> Follows(cfg, lexicon, N, path[k - 1], path[k])
  }

  lemma ChainSnoc(cfg: Config, lexicon: seq<TrieNode>, N: nat, path: seq<Node>, x: Node)
    requires IsChain(cfg, lexicon, N, path) && Follows(cfg, lexicon, N, path[|path| - 1], x)
    ensures IsChain(cfg, lexicon, N, path + [x])
  {
    hide Follows, SameMove;
  }

  /** The objective of a chain, with what a word still being spelled is worth. */
  ghost function ChainScore(cfg: Config, lexicon: seq<TrieNode>, rows: seq<seq<real>>, path: seq<Node>): real {
    if path == [] then 0.0 else Objective(cfg, rows, path, Ahead(cfg, lexicon, path[|path| - 1].lex))
  }

  /** The objective with the end of the sentence. */
  ghost function EndScore(cfg: Config, rows: seq<seq<real>>, path: seq<Node>): real {
    if path == [] then 0.0 else Objective(cfg, rows, path, cfg.lm.finish(LmState(cfg.lm, Read(cfg, path))).1)
  }

  /** Both depend on the moves alone. */
  lemma {:induction false} MovesDecide(cfg: Config, a: seq<Node>, b: seq<Node>)
    requires SameMoves(a, b)
    ensures Words(a) == Words(b) && Eaten(a) == Eaten(b) && SilenceFrames(cfg, a) == SilenceFrames(cfg, b)
  {
    if a != [] {
      var n := |a| - 1;
      MovesDecide(cfg, a[..n], b[..n]);
      assert SameMove(a[n], b[n]);
      if n > 0 { assert SameMove(a[n - 1], b[n - 1]); }
    }
  }

  lemma ScoresDecided(cfg: Config, lexicon: seq<TrieNode>, rows: seq<seq<real>>, a: seq<Node>, b: seq<Node>)
    requires SameMoves(a, b)
    ensures ChainScore(cfg, lexicon, rows, a) == ChainScore(cfg, lexicon, rows, b)
    ensures EndScore(cfg, rows, a) == EndScore(cfg, rows, b)
  {
    hide Words, Eaten, SilenceFrames, Acoustic, WordBonus, LmScore, LmState, Smear;
    MovesDecide(cfg, a, b);
    if a != [] {
      assert SameMove(a[|a| - 1], b[|a| - 1]);
      assert Tokens(a) == Tokens(b) by {
        forall k | 0 <= k < |a| - 1 ensures Tokens(a)[k] == Tokens(b)[k] { assert SameMove(a[k + 1], b[k + 1]); }
      }
    }
  }

  // ---- What the decoder proposes is what may follow

  ghost predicate AllEnter(lexicon: seq<TrieNode>, N: nat, h: Node, s: seq<Node>) {
    forall i :: 0 <= i < |s| ==> Enters(lexicon, N, h, s[i])
  }

  lemma LexEnters(cfg: Config, lexicon: seq<TrieNode>, N: nat, first: bool, row: seq<real>, h: Node, j: int, n: int)
    requires 0 <= n < N && -1 != cfg.unk && IsLexicon(cfg.unk, lexicon)
    ensures AllEnter(lexicon, N, h, ProposeLex(cfg, lexicon, first, row, h, j, n))
  {
    hide AcousticStep, Smear, Weighted;
    if n in Lookup(lexicon, h.lex).children {
      var child := Lookup(lexicon, h.lex).children[n];
      var labels := Lookup(lexicon, child).labels;
      var score := h.score + AcousticStep(cfg, first, row, h.token, n);
      var words := ProposeWords(cfg, lexicon, score, h, j, n, labels);
      forall i | 0 <= i < |words| ensures Enters(lexicon, N, h, words[i]) { assert labels[i] in labels; }
    }
  }

  lemma {:induction false} TokensEnter(cfg: Config, lexicon: seq<TrieNode>, N: nat, first: bool, row: seq<real>,
                                       tokens: seq<int>, h: Node, j: int)
    requires cfg.lexicon == Some(lexicon) && IsLexicon(cfg.unk, lexicon)
    requires forall i :: 0 <= i < |tokens| ==> 0 <= tokens[i] < N
    ensures AllEnter(lexicon, N, h, ProposeTokens(cfg, first, row, tokens, h, j))
  {
    hide Enters, ProposeLex, Lookup;
    if tokens != [] {
      TokensEnter(cfg, lexicon, N, first, row, tokens[..|tokens| - 1], h, j);
      LexEnters(cfg, lexicon, N, first, row, h, j, tokens[|tokens| - 1]);
    }
  }

  lemma FromFollows(cfg: Config, lexicon: seq<TrieNode>, N: nat, first: bool, row: seq<real>, tokens: seq<int>,
                    h: Node, j: int, x: Node)
    requires cfg.lexicon == Some(lexicon) && NoLoops(lexicon) && IsLexicon(cfg.unk, lexicon)
    requires forall i :: 0 <= i < |tokens| ==> 0 <= tokens[i] < N
    requires x in ProposeFrom(cfg, first, row, tokens, h, j)
    ensures Follows(cfg, lexicon, N, h, x)
  {
    hide ProposeTokens, NoLoops, IsLexicon, AcousticStep, Lookup, Legal;
    FromLegal(cfg, lexicon, first, row, tokens, h, j, x);
    TokensEnter(cfg, lexicon, N, first, row, tokens, h, j);
  }

  lemma {:induction false} TokensContain(cfg: Config, first: bool, row: seq<real>, tokens: seq<int>, h: Node, j: int,
                                         i: int, y: Node)
    requires 0 <= i < |tokens| && y in ProposeToken(cfg, first, row, h, j, tokens[i])
    ensures y in ProposeTokens(cfg, first, row, tokens, h, j)
  {
    hide ProposeToken;
    var n := |tokens| - 1;
    if i < n { TokensContain(cfg, first, row, tokens[..n], h, j, i, y); }
  }

  lemma WordProposed(cfg: Config, lexicon: seq<TrieNode>, first: bool, row: seq<real>, h: Node, j: int, x: Node)
    returns (y: Node)
    requires x.word != -1 && Legal(cfg, lexicon, h, x)
    ensures y in ProposeLex(cfg, lexicon, first, row, h, j, x.token) && SameMove(x, y)
  {
    hide AcousticStep, Smear, Weighted, ProposeChild;
    var child := Lookup(lexicon, h.lex).children[x.token];
    var labels := Lookup(lexicon, child).labels;
    var score := h.score + AcousticStep(cfg, first, row, h.token, x.token);
    if x.word in labels {
      var i :| 0 <= i < |labels| && labels[i] == x.word;
      y := ProposeWords(cfg, lexicon, score, h, j, x.token, labels)[i];
    } else {
      y := ProposeUnknown(cfg, lexicon, score, h, j, x.token, labels)[0];
    }
  }

  lemma ChildProposed(cfg: Config, lexicon: seq<TrieNode>, N: nat, first: bool, row: seq<real>, h: Node, j: int,
                      x: Node) returns (y: Node)
    requires x.word == -1 && x.lex != h.lex && Follows(cfg, lexicon, N, h, x)
    ensures y in ProposeLex(cfg, lexicon, first, row, h, j, x.token) && SameMove(x, y)
  {
    hide AcousticStep, Smear, Weighted, ProposeWords, ProposeUnknown;
    var score := h.score + AcousticStep(cfg, first, row, h.token, x.token);
    y := ProposeChild(cfg, lexicon, score, h, j, x.token, x.lex)[0];
  }

  /** Whatever may follow is proposed. */
  lemma FollowsProposed(cfg: Config, lexicon: seq<TrieNode>, N: nat, first: bool, row: seq<real>, h: Node, j: int,
                        x: Node) returns (y: Node)
    requires cfg.lexicon == Some(lexicon) && Follows(cfg, lexicon, N, h, x)
    ensures y in ProposeFrom(cfg, first, row, seq(N, i => i), h, j) && SameMove(x, y)
  {
    hide AcousticStep, ProposeLex, ProposeTokens;
    var tokens := seq(N, i => i);
    if x.word != -1 || x.lex != h.lex {
      if x.word != -1 {
        y := WordProposed(cfg, lexicon, first, row, h, j, x);
      } else {
        y := ChildProposed(cfg, lexicon, N, first, row, h, j, x);
      }
      TokensContain(cfg, first, row, tokens, h, j, x.token, y);
    } else {
      var stay := ProposeStay(cfg, first, row, h, j);
      y := if x.prevBlank then stay[|stay| - 1] else stay[0];
    }
  }

  lemma {:induction false} AllContain(cfg: Config, first: bool, row: seq<real>, tokens: seq<int>, beam: seq<Node>,
                                      j: int, y: Node)
    requires 0 <= j < |beam| && y in ProposeFrom(cfg, first, row, tokens, beam[j], j)
    ensures y in ProposeAll(cfg, first, row, tokens, beam)
  {
    hide ProposeFrom;
    var n := |beam| - 1;
    if j < n { AllContain(cfg, first, row, tokens, beam[..n], j, y); }
  }

  // ---- Scores along chains

  /** h is in the state the chain leads to. */
  ghost predicate StandsAt(cfg: Config, path: seq<Node>, h: Node) {
    && path != [] && h.lm == LmState(cfg.lm, Read(cfg, path))
    && var x := path[|path| - 1]; h.lex == x.lex && h.token == x.token && h.prevBlank == x.prevBlank
  }

  lemma PaidShift(cfg: Config, lexicon: seq<TrieNode>, first: bool, row: seq<real>, h: Node, y: Node, d: real, w: int)
    requires Paid(cfg, lexicon, first, row, h, y)
    ensures Paid(cfg, lexicon, first, row, h.(score := h.score - d, word := w), y.(score := y.score - d))
  {
    hide Smear, Weighted, Emission, UnknownBonus;
  }

  /** Paying for a move from where a chain leads adds what the move adds to the objective. */
  lemma StepScores(cfg: Config, lexicon: seq<TrieNode>, rows: seq<seq<real>>, path: seq<Node>, h: Node, x: Node,
                   y: Node)
    requires 1 <= |path| <= |rows| && StandsAt(cfg, path, h) && SameMove(x, y)
    requires Paid(cfg, lexicon, |path| == 1, rows[|path| - 1], h, y)
    ensures StandsAt(cfg, path + [x], y)
    ensures y.score == h.score + ChainScore(cfg, lexicon, rows, path + [x]) - ChainScore(cfg, lexicon, rows, path)
  {
    hide Paid, Objective, LmState, Words, Eaten, Smear;
    var n := |path| - 1;
    var d := h.score - ChainScore(cfg, lexicon, rows, path);
    var h', y' := h.(score := h.score - d, word := path[n].word), y.(score := y.score - d);
    PaidShift(cfg, lexicon, |path| == 1, rows[n], h, y, d, path[n].word);
    var path' := path[..n] + [h'];
    assert SameMoves(path, path');
    MovesDecide(cfg, path, path');
    ScoresDecided(cfg, lexicon, rows, path, path');
    AccountedNext(cfg, lexicon, rows, path', y');
    assert SameMoves(path' + [y'], path + [x]);
    MovesDecide(cfg, path' + [y'], path + [x]);
    ScoresDecided(cfg, lexicon, rows, path' + [y'], path + [x]);
  }

  lemma SameStand(cfg: Config, path: seq<Node>, y: Node, z: Node)
    requires StandsAt(cfg, path, y) && SameKey(z, y)
    ensures StandsAt(cfg, path, z)
  {
  }

  lemma RootStands(cfg: Config, lexicon: seq<TrieNode>, rows: seq<seq<real>>, path: seq<Node>)
    requires |path| == 1 && SameMove(path[0], Root(cfg))
    ensures StandsAt(cfg, path, Root(cfg)) && Root(cfg).score == ChainScore(cfg, lexicon, rows, path)
  {
    hide Objective;
    assert SameMoves(path, [Root(cfg)]);
    StartAccounted(cfg, lexicon, rows);
    MovesDecide(cfg, path, [Root(cfg)]);
    ScoresDecided(cfg, lexicon, rows, path, [Root(cfg)]);
  }

  // ---- When nothing is dropped

  /** All N tokens are considered and no frame drops a candidate. */
  ghost predicate LosslessRun(cfg: Config, N: nat, rows: seq<seq<real>>, m: Machine) {
    && N <= cfg.beamSizeToken && |m.beams| == |rows| + 1 && (forall t :: 0 <= t < |rows| ==> |rows[t]| == N)
    && (forall t :: 0 <= t < |rows| ==>
         Lossless(cfg.beamSize, cfg.threshold, ProposeAll(cfg, t == 0, rows[t], seq(N, i => i), m.beams[t])))
  }

  /** A decoding without log-add. */
  ghost predicate IsDecoding(cfg: Config, lexicon: seq<TrieNode>, rows: seq<seq<real>>, m: Machine) {
    && cfg.lexicon == Some(lexicon) && cfg.merge == TakeMax
    && NoLoops(lexicon) && IsLexicon(cfg.unk, lexicon) && Sound(m) && Steps(cfg, Begin(cfg), rows, m)
  }

  /** Then each chain is represented by a hypothesis that stands where it leads and scores
      at least its objective. */
  lemma {:induction false} LexCovers(cfg: Config, lexicon: seq<TrieNode>, N: nat, rows: seq<seq<real>>, m: Machine,
                                     path: seq<Node>) returns (i: int)
    requires IsDecoding(cfg, lexicon, rows, m) && LosslessRun(cfg, N, rows, m)
    requires IsChain(cfg, lexicon, N, path) && |path| <= |rows| + 1
    ensures IsRef(m.beams, |path| - 1, i) && StandsAt(cfg, path, m.beams[|path| - 1][i])
    ensures m.beams[|path| - 1][i].score >= ChainScore(cfg, lexicon, rows, path)
  {
    hide StandsAt, ChainScore, Follows, FrameStep, ProposeAll, Lossless, NoLoops, IsLexicon;
    var t := |path| - 1;
    if t == 0 {
      assert m.beams[0] == m.beams[..1][0] == Begin(cfg).beams[0];
      RootStands(cfg, lexicon, rows, path);
      i := 0;
    } else {
      var before, x := path[..t], path[t];
      assert path == before + [x];
      var j := LexCovers(cfg, lexicon, N, rows, m, before);
      assert StepAt(cfg, Begin(cfg), rows, m.beams, t - 1);
      assert Follows(cfg, lexicon, N, before[t - 1], x);
      i := CoverNext(cfg, lexicon, N, rows, m.beams[t - 1], m.beams[t], before, j, x);
    }
  }

  lemma CoverNext(cfg: Config, lexicon: seq<TrieNode>, N: nat, rows: seq<seq<real>>, beam: seq<Node>, out: seq<Node>,
                  path: seq<Node>, j: int, x: Node) returns (i: int)
    requires Uses(cfg, lexicon) && cfg.merge == TakeMax
    requires 1 <= |path| <= |rows| && |rows[|path| - 1]| == N <= cfg.beamSizeToken
    requires FrameStep(cfg, |path| == 1, rows[|path| - 1], beam, out)
    requires Lossless(cfg.beamSize, cfg.threshold,
                      ProposeAll(cfg, |path| == 1, rows[|path| - 1], seq(N, k => k), beam))
    requires 0 <= j < |beam| && StandsAt(cfg, path, beam[j])
    requires beam[j].score >= ChainScore(cfg, lexicon, rows, path)
    requires Follows(cfg, lexicon, N, path[|path| - 1], x)
    ensures 0 <= i < |out| && StandsAt(cfg, path + [x], out[i])
    ensures out[i].score >= ChainScore(cfg, lexicon, rows, path + [x])
  {
    hide ChainScore, FrameStep, Stored, ProposeAll, ProposeFrom, Lossless, IsLexicon, NoLoops, Paid, StandsAt, Follows;
    var first, row, h := |path| == 1, rows[|path| - 1], beam[j];
    FollowsFrom(cfg, lexicon, N, path, h, x);
    var y := FollowsProposed(cfg, lexicon, N, first, row, h, j, x);
    FromPaid(cfg, lexicon, first, row, seq(N, k => k), h, j, y);
    StepScores(cfg, lexicon, rows, path, h, x, y);
    AllContain(cfg, first, row, seq(N, k => k), beam, j, y);
    Free.FrameOfAll(cfg, N, first, row, beam, out);
    i := StoredCovers(cfg.beamSize, cfg.threshold, ProposeAll(cfg, first, row, seq(N, k => k), beam), false, out, y);
    SameStand(cfg, path + [x], y, out[i]);
  }

  /** What may follow depends on where a chain stands alone. */
  lemma FollowsFrom(cfg: Config, lexicon: seq<TrieNode>, N: nat, path: seq<Node>, h: Node, x: Node)
    requires StandsAt(cfg, path, h) && Follows(cfg, lexicon, N, path[|path| - 1], x)
    ensures Follows(cfg, lexicon, N, h, x)
  {
    hide Lookup, LmState, Words, Eaten;
  }

  // ---- Every hypothesis is a chain

  lemma ConsideredBelow(row: seq<real>, K: nat, tokens: seq<int>)
    requires TokenChoice(row, K, tokens)
    ensures forall i :: 0 <= i < |tokens| ==> 0 <= tokens[i] < |row|
  {
  }

  lemma {:induction false} HypothesisIsChain(cfg: Config, lexicon: seq<TrieNode>, N: nat, rows: seq<seq<real>>,
                                             m: Machine, k: int, i: int)
    requires IsDecoding(cfg, lexicon, rows, m) && IsRef(m.beams, k, i)
    requires forall t :: 0 <= t < |rows| ==> |rows[t]| == N
    ensures IsChain(cfg, lexicon, N, Chain(m.beams, k, i))
    decreases k
  {
    hide IsChain, Follows, FrameStep, ProposeFrom, TokenChoice, NoLoops, IsLexicon;
    assert m.beams[0] == m.beams[..1][0] == Begin(cfg).beams[0];
    if k == 0 {
      RootIsChain(cfg, lexicon, N);
    } else {
      assert Linked(m.beams[k], |m.beams[k - 1]|);
      var x := m.beams[k][i];
      HypothesisIsChain(cfg, lexicon, N, rows, m, k - 1, x.parent);
      assert StepAt(cfg, Begin(cfg), rows, m.beams, k - 1);
      var tokens := FrameExtends(cfg, k == 1, rows[k - 1], m.beams[k - 1], m.beams[k], x);
      ConsideredBelow(rows[k - 1], cfg.beamSizeToken, tokens);
      FromFollows(cfg, lexicon, N, k == 1, rows[k - 1], tokens, m.beams[k - 1][x.parent], x.parent, x);
      ChainSnoc(cfg, lexicon, N, Chain(m.beams, k - 1, x.parent), x);
    }
  }

  lemma RootIsChain(cfg: Config, lexicon: seq<TrieNode>, N: nat)
    ensures IsChain(cfg, lexicon, N, [Root(cfg)])
  {
  }

  /** The hypothesis scores its chain and stands where it leads. */
  lemma HypothesisMeans(cfg: Config, lexicon: seq<TrieNode>, N: nat, rows: seq<seq<real>>, m: Machine, k: int, i: int)
    requires IsDecoding(cfg, lexicon, rows, m) && IsRef(m.beams, k, i)
    requires forall t :: 0 <= t < |rows| ==> |rows[t]| == N
    ensures var path := Chain(m.beams, k, i);
      && IsChain(cfg, lexicon, N, path) && StandsAt(cfg, path, m.beams[k][i])
      && m.beams[k][i].score == ChainScore(cfg, lexicon, rows, path)
  {
    hide IsChain, StepAt, NoLoops, IsLexicon, Objective, Chained, LmState, Words, Eaten;
    HypothesisIsChain(cfg, lexicon, N, rows, m, k, i);
    LexiconObjective(cfg, lexicon, rows, m, k, i);
  }

  // ---- The end of the utterance

  /** A chain through all frames that ends between words. */
  ghost predicate IsWhole(cfg: Config, lexicon: seq<TrieNode>, N: nat, rows: seq<seq<real>>, path: seq<Node>) {
    IsChain(cfg, lexicon, N, path) && |path| == |rows| + 1 && path[|rows|].lex == 0
  }

  /** Staying on the silence before the first word is one. */
  lemma Staying(cfg: Config, lexicon: seq<TrieNode>, N: nat, rows: seq<seq<real>>) returns (path: seq<Node>)
    ensures IsWhole(cfg, lexicon, N, rows, path)
  {
    hide Lookup;
    path := seq(|rows| + 1, _ => Root(cfg));
  }

  lemma FinalScores(cfg: Config, lexicon: seq<TrieNode>, rows: seq<seq<real>>, path: seq<Node>, h: Node, j: int)
    requires StandsAt(cfg, path, h) && h.lex == 0
    ensures ProposeFinal(cfg, h, j).score
      == h.score + EndScore(cfg, rows, path) - ChainScore(cfg, lexicon, rows, path)
  {
    hide LmState, Words, Eaten, Smear, Weighted, Acoustic, WordBonus, SilenceFrames, LmScore, Tokens,
         DecoderScore.Times;
    var finish := cfg.lm.finish(LmState(cfg.lm, Read(cfg, path))).1;
    RootSmear(lexicon);
    var l := LmScore(cfg.lm, Read(cfg, path));
    WeightedAdd(cfg, l, finish);
    WeightedIs(cfg, l);
    WeightedIs(cfg, l + finish);
    assert l + 0.0 == l;
  }

  /** So some hypothesis ends between words, and only those that do are kept. */
  lemma NiceAlways(cfg: Config, lexicon: seq<TrieNode>, N: nat, rows: seq<seq<real>>, m: Machine)
    requires IsDecoding(cfg, lexicon, rows, m) && LosslessRun(cfg, N, rows, m)
    ensures NiceEnding(cfg, m.beams[|rows|])
  {
    hide IsChain, StepAt, NoLoops, IsLexicon, ChainScore, Chained, Lossless;
    var path := Staying(cfg, lexicon, N, rows);
    var i := LexCovers(cfg, lexicon, N, rows, m, path);
    assert m.beams[|rows|][i].lex == 0;
  }

  lemma {:induction false} FinalProposed(cfg: Config, beam: seq<Node>, j: int)
    requires 0 <= j < |beam| && beam[j].lex == 0
    ensures ProposeFinal(cfg, beam[j], j) in ProposeFinals(cfg, true, beam)
  {
    hide ProposeFinal;
    if j < |beam| - 1 { FinalProposed(cfg, beam[..|beam| - 1], j); }
  }

  /** Nothing is dropped at the end either. */
  ghost predicate LosslessEnd(cfg: Config, beam: seq<Node>) {
    Lossless(cfg.beamSize, cfg.threshold, ProposeFinals(cfg, true, beam))
  }

  lemma LexFinishes(cfg: Config, lexicon: seq<TrieNode>, N: nat, rows: seq<seq<real>>, m: Machine, m': Machine,
                    path: seq<Node>) returns (i: int)
    requires IsDecoding(cfg, lexicon, rows, m) && LosslessRun(cfg, N, rows, m) && Ends(cfg, m, m')
    requires LosslessEnd(cfg, m.beams[|rows|]) && IsWhole(cfg, lexicon, N, rows, path)
    ensures 0 <= i < |m'.beams[|rows| + 1]|
    ensures m'.beams[|rows| + 1][i].score >= EndScore(cfg, rows, path)
  {
    hide IsChain, StepAt, NoLoops, IsLexicon, ChainScore, EndScore, Chained, Lossless, StandsAt, Stored, ProposeFinals,
         ProposeFinal, NiceEnding, LosslessRun;
    var beam := m.beams[|rows|];
    NiceAlways(cfg, lexicon, N, rows, m);
    var j := LexCovers(cfg, lexicon, N, rows, m, path);
    StandsLex(cfg, path, beam[j]);
    FinalProposed(cfg, beam, j);
    FinalScores(cfg, lexicon, rows, path, beam[j], j);
    i := StoredCovers(cfg.beamSize, cfg.threshold, ProposeFinals(cfg, true, beam), true, m'.beams[|rows| + 1],
                      ProposeFinal(cfg, beam[j], j));
  }

  lemma StandsLex(cfg: Config, path: seq<Node>, h: Node)
    requires StandsAt(cfg, path, h)
    ensures h.lex == path[|path| - 1].lex
  {
  }

  /** A decoding that drops nothing ends on a best chain. */
  lemma LosslessIsExact(cfg: Config, lexicon: seq<TrieNode>, N: nat, rows: seq<seq<real>>, m: Machine, m': Machine)
    returns (best: seq<Node>)
    requires IsDecoding(cfg, lexicon, rows, m) && LosslessRun(cfg, N, rows, m) && Ends(cfg, m, m')
    requires LosslessEnd(cfg, m.beams[|rows|])
    ensures m'.beams[|rows| + 1] != [] && IsRef(m.beams, |rows|, m'.beams[|rows| + 1][0].parent)
    ensures best == Chain(m.beams, |rows|, m'.beams[|rows| + 1][0].parent) && IsWhole(cfg, lexicon, N, rows, best)
    ensures m'.beams[|rows| + 1][0].score == EndScore(cfg, rows, best)
    ensures forall path :: IsWhole(cfg, lexicon, N, rows, path) ==>
              EndScore(cfg, rows, path) <= EndScore(cfg, rows, best)
  {
    hide IsChain, StepAt, NoLoops, IsLexicon, ChainScore, EndScore, Chained, Lossless, StandsAt, Stored, ProposeFinals,
         NiceEnding, Chain;
    var beam, out := m.beams[|rows|], m'.beams[|rows| + 1];
    var some := Staying(cfg, lexicon, N, rows);
    var i := LexFinishes(cfg, lexicon, N, rows, m, m', some);
    var y := out[0];
    FinalParent(cfg, beam, out, y);
    NiceAlways(cfg, lexicon, N, rows, m);
    best := Chain(m.beams, |rows|, y.parent);
    HypothesisMeans(cfg, lexicon, N, rows, m, |rows|, y.parent);
    StandsLex(cfg, best, beam[y.parent]);
    FinalScores(cfg, lexicon, rows, best, beam[y.parent], y.parent);
    forall path | IsWhole(cfg, lexicon, N, rows, path)
      ensures EndScore(cfg, rows, path) <= EndScore(cfg, rows, best)
    {
      var j := LexFinishes(cfg, lexicon, N, rows, m, m', path);
      Free.StoredSorted(cfg.merge, cfg.beamSize, cfg.threshold, ProposeFinals(cfg, true, beam), out, j);
    }
  }

  // ---- Sizes that are large enough

  /** No more proposals than this come from one hypothesis, with W words at most on a node. */
  function Fan(N: nat, W: nat): nat {
    N * (W + 2) + 2
  }

  ghost predicate FewWords(lexicon: seq<TrieNode>, W: nat) {
    forall i :: 0 <= i < |lexicon| ==> |lexicon[i].labels| <= W
  }

  /** Room for all tokens and all chains, and a threshold no smaller than what chains of one
      length differ by. */
  ghost predicate Ample(cfg: Config, lexicon: seq<TrieNode>, N: nat, W: nat, rows: seq<seq<real>>) {
    && N <= cfg.beamSizeToken && (forall t :: 0 <= t < |rows| ==> |rows[t]| == N) && FewWords(lexicon, W)
    && (forall t: nat :: t <= |rows| ==> Free.Power(Fan(N, W), t) <= cfg.beamSize)
    && (forall a, b :: Comparable(cfg, lexicon, N, rows, a, b) ==>
         ChainScore(cfg, lexicon, rows, a) >= ChainScore(cfg, lexicon, rows, b) - cfg.threshold)
    && (forall a, b :: IsWhole(cfg, lexicon, N, rows, a) && IsWhole(cfg, lexicon, N, rows, b) ==>
         EndScore(cfg, rows, a) >= EndScore(cfg, rows, b) - cfg.threshold)
  }

  ghost predicate Comparable(cfg: Config, lexicon: seq<TrieNode>, N: nat, rows: seq<seq<real>>, a: seq<Node>,
                             b: seq<Node>) {
    |a| == |b| <= |rows| + 1 && IsChain(cfg, lexicon, N, a) && IsChain(cfg, lexicon, N, b)
  }

  lemma LexCount(cfg: Config, lexicon: seq<TrieNode>, W: nat, first: bool, row: seq<real>, h: Node, j: int, n: int)
    requires FewWords(lexicon, W)
    ensures |ProposeLex(cfg, lexicon, first, row, h, j, n)| <= W + 2
  {
    hide AcousticStep, Smear, Weighted;
  }

  lemma {:induction false} TokensCount(cfg: Config, lexicon: seq<TrieNode>, W: nat, first: bool, row: seq<real>,
                                       tokens: seq<int>, h: Node, j: int)
    requires cfg.lexicon == Some(lexicon) && FewWords(lexicon, W)
    ensures |ProposeTokens(cfg, first, row, tokens, h, j)| <= |tokens| * (W + 2)
  {
    hide ProposeLex, FewWords;
    if tokens != [] {
      var n := |tokens| - 1;
      TokensCount(cfg, lexicon, W, first, row, tokens[..n], h, j);
      LexCount(cfg, lexicon, W, first, row, h, j, tokens[n]);
      assert (n + 1) * (W + 2) == n * (W + 2) + (W + 2);
    }
  }

  lemma FromCount(cfg: Config, lexicon: seq<TrieNode>, W: nat, first: bool, row: seq<real>, tokens: seq<int>, h: Node,
                  j: int)
    requires cfg.lexicon == Some(lexicon) && FewWords(lexicon, W)
    ensures |ProposeFrom(cfg, first, row, tokens, h, j)| <= Fan(|tokens|, W)
  {
    hide ProposeTokens, FewWords, AcousticStep;
    TokensCount(cfg, lexicon, W, first, row, tokens, h, j);
  }

  lemma {:induction false} AllCount(cfg: Config, lexicon: seq<TrieNode>, W: nat, first: bool, row: seq<real>,
                                    tokens: seq<int>, beam: seq<Node>)
    requires cfg.lexicon == Some(lexicon) && FewWords(lexicon, W)
    ensures |ProposeAll(cfg, first, row, tokens, beam)| <= |beam| * Fan(|tokens|, W)
  {
    hide ProposeFrom, FewWords, Fan;
    if beam != [] {
      var n := |beam| - 1;
      AllCount(cfg, lexicon, W, first, row, tokens, beam[..n]);
      FromCount(cfg, lexicon, W, first, row, tokens, beam[n], n);
      assert (n + 1) * Fan(|tokens|, W) == n * Fan(|tokens|, W) + Fan(|tokens|, W);
    }
  }

  lemma {:induction false} BeamCount(cfg: Config, lexicon: seq<TrieNode>, N: nat, W: nat, rows: seq<seq<real>>,
                                     m: Machine, t: nat)
    requires IsDecoding(cfg, lexicon, rows, m) && t <= |rows| && FewWords(lexicon, W)
    requires N <= cfg.beamSizeToken && forall u :: 0 <= u < |rows| ==> |rows[u]| == N
    ensures |m.beams[t]| <= Free.Power(Fan(N, W), t)
  {
    hide FrameStep, Stored, ProposeAll, FewWords, Fan, NoLoops, IsLexicon;
    if t == 0 {
      assert m.beams[0] == m.beams[..1][0] == Begin(cfg).beams[0];
    } else {
      BeamCount(cfg, lexicon, N, W, rows, m, t - 1);
      var row, beam, out := rows[t - 1], m.beams[t - 1], m.beams[t];
      assert StepAt(cfg, Begin(cfg), rows, m.beams, t - 1);
      Free.FrameOfAll(cfg, N, t == 1, row, beam, out);
      Free.StoredSize(cfg.merge, cfg.beamSize, cfg.threshold, ProposeAll(cfg, t == 1, row, seq(N, i => i), beam), false,
                      out);
      AllCount(cfg, lexicon, W, t == 1, row, seq(N, i => i), beam);
      Free.Grows(|beam|, Free.Power(Fan(N, W), t - 1), Fan(N, W));
    }
  }

  /** A proposal scores some chain. */
  lemma ProposalMeans(cfg: Config, lexicon: seq<TrieNode>, N: nat, rows: seq<seq<real>>, m: Machine, t: nat, p: Node)
    returns (path: seq<Node>)
    requires IsDecoding(cfg, lexicon, rows, m) && t < |rows| && forall u :: 0 <= u < |rows| ==> |rows[u]| == N
    requires p in ProposeAll(cfg, t == 0, rows[t], seq(N, i => i), m.beams[t])
    ensures |path| == t + 2 && IsChain(cfg, lexicon, N, path) && p.score == ChainScore(cfg, lexicon, rows, path)
  {
    hide IsChain, StepAt, NoLoops, IsLexicon, ChainScore, Chained, StandsAt, ProposeAll, ProposeFrom, Follows, Paid,
         Chain;
    var all := seq(N, i => i);
    ProposedBy(cfg, t == 0, rows[t], all, m.beams[t], p);
    var h := m.beams[t][p.parent];
    HypothesisMeans(cfg, lexicon, N, rows, m, t, p.parent);
    var before := Chain(m.beams, t, p.parent);
    FromFollows(cfg, lexicon, N, t == 0, rows[t], all, h, p.parent, p);
    FromPaid(cfg, lexicon, t == 0, rows[t], all, h, p.parent, p);
    StepScores(cfg, lexicon, rows, before, h, p, p);
    path := before + [p];
    ChainSnoc(cfg, lexicon, N, before, p);
  }

  lemma AmpleFrame(cfg: Config, lexicon: seq<TrieNode>, N: nat, W: nat, rows: seq<seq<real>>, m: Machine, t: nat)
    requires IsDecoding(cfg, lexicon, rows, m) && Ample(cfg, lexicon, N, W, rows) && t < |rows|
    ensures Lossless(cfg.beamSize, cfg.threshold, ProposeAll(cfg, t == 0, rows[t], seq(N, i => i), m.beams[t]))
  {
    hide IsChain, IsDecoding, ChainScore, EndScore, ProposeAll, Free.Power, FewWords, Fan, IsWhole;
    DecodingLexicon(cfg, lexicon, rows, m);
    var proposals := ProposeAll(cfg, t == 0, rows[t], seq(N, i => i), m.beams[t]);
    BeamCount(cfg, lexicon, N, W, rows, m, t);
    AllCount(cfg, lexicon, W, t == 0, rows[t], seq(N, i => i), m.beams[t]);
    Free.Grows(|m.beams[t]|, Free.Power(Fan(N, W), t), Fan(N, W));
    Free.PowerNext(Fan(N, W), t);
    forall i, j | 0 <= i < |proposals| && 0 <= j < |proposals|
      ensures proposals[i].score >= proposals[j].score - cfg.threshold
    {
      var a := ProposalMeans(cfg, lexicon, N, rows, m, t, proposals[i]);
      var b := ProposalMeans(cfg, lexicon, N, rows, m, t, proposals[j]);
      assert Comparable(cfg, lexicon, N, rows, a, b);
    }
  }

  lemma DecodingLexicon(cfg: Config, lexicon: seq<TrieNode>, rows: seq<seq<real>>, m: Machine)
    requires IsDecoding(cfg, lexicon, rows, m)
    ensures cfg.lexicon == Some(lexicon) && |m.beams| == |rows| + 1
  {
    hide NoLoops, IsLexicon, StepAt;
  }

  /** With such sizes no frame drops a candidate. */
  lemma AmpleIsLossless(cfg: Config, lexicon: seq<TrieNode>, N: nat, W: nat, rows: seq<seq<real>>, m: Machine)
    requires IsDecoding(cfg, lexicon, rows, m) && Ample(cfg, lexicon, N, W, rows)
    ensures LosslessRun(cfg, N, rows, m)
  {
    hide IsChain, IsDecoding, ChainScore, EndScore, ProposeAll, Free.Power, FewWords, Fan, IsWhole, Lossless;
    DecodingLexicon(cfg, lexicon, rows, m);
    forall t | 0 <= t < |rows|
      ensures Lossless(cfg.beamSize, cfg.threshold, ProposeAll(cfg, t == 0, rows[t], seq(N, i => i), m.beams[t]))
    {
      AmpleFrame(cfg, lexicon, N, W, rows, m, t);
    }
  }

  lemma EndMeans(cfg: Config, lexicon: seq<TrieNode>, N: nat, rows: seq<seq<real>>, m: Machine, p: Node)
    returns (path: seq<Node>)
    requires IsDecoding(cfg, lexicon, rows, m) && forall u :: 0 <= u < |rows| ==> |rows[u]| == N
    requires p in ProposeFinals(cfg, true, m.beams[|rows|])
    ensures IsWhole(cfg, lexicon, N, rows, path) && p.score == EndScore(cfg, rows, path)
  {
    hide IsChain, StepAt, NoLoops, IsLexicon, ChainScore, EndScore, Chained, StandsAt, ProposeFinals, Chain;
    var beam := m.beams[|rows|];
    FinalBy(cfg, true, beam, p);
    HypothesisMeans(cfg, lexicon, N, rows, m, |rows|, p.parent);
    path := Chain(m.beams, |rows|, p.parent);
    StandsLex(cfg, path, beam[p.parent]);
    FinalScores(cfg, lexicon, rows, path, beam[p.parent], p.parent);
  }

  lemma {:induction false} FinalCount(cfg: Config, beam: seq<Node>)
    ensures |ProposeFinals(cfg, true, beam)| <= |beam|
  {
    if beam != [] { FinalCount(cfg, beam[..|beam| - 1]); }
  }

  lemma AmpleEndIsLossless(cfg: Config, lexicon: seq<TrieNode>, N: nat, W: nat, rows: seq<seq<real>>, m: Machine)
    requires IsDecoding(cfg, lexicon, rows, m) && Ample(cfg, lexicon, N, W, rows)
    ensures LosslessEnd(cfg, m.beams[|rows|])
  {
    hide IsChain, IsDecoding, ChainScore, EndScore, ProposeFinals, Free.Power, FewWords, Fan, IsWhole;
    DecodingLexicon(cfg, lexicon, rows, m);
    var beam := m.beams[|rows|];
    var proposals := ProposeFinals(cfg, true, beam);
    BeamCount(cfg, lexicon, N, W, rows, m, |rows|);
    FinalCount(cfg, beam);
    forall i, j | 0 <= i < |proposals| && 0 <= j < |proposals|
      ensures proposals[i].score >= proposals[j].score - cfg.threshold
    {
      var a := EndMeans(cfg, lexicon, N, rows, m, proposals[i]);
      var b := EndMeans(cfg, lexicon, N, rows, m, proposals[j]);
    }
  }

  // ---- There always are such sizes

  /** What may follow is one of finitely many moves. */
  lemma OneOf(cfg: Config, lexicon: seq<TrieNode>, N: nat, h: Node, x: Node) returns (c: int)
    requires cfg.lexicon == Some(lexicon) && Follows(cfg, lexicon, N, h, x)
    ensures 0 <= c < |ProposeFrom(cfg, true, [], seq(N, i => i), h, 0)|
    ensures SameMove(x, ProposeFrom(cfg, true, [], seq(N, i => i), h, 0)[c])
  {
    hide ProposeFrom, Follows;
    var y := FollowsProposed(cfg, lexicon, N, true, [], h, 0, x);
    c :| 0 <= c < |ProposeFrom(cfg, true, [], seq(N, i => i), h, 0)|
      && ProposeFrom(cfg, true, [], seq(N, i => i), h, 0)[c] == y;
  }

  ghost predicate Extends(cfg: Config, lexicon: seq<TrieNode>, N: nat, prefix: seq<Node>, k: nat, s: seq<Node>) {
    |s| == |prefix| + k && IsChain(cfg, lexicon, N, s) && SameMoves(prefix, s[..|prefix|])
  }

  lemma NextMove(cfg: Config, lexicon: seq<TrieNode>, N: nat, prefix: seq<Node>, k: nat, s: seq<Node>) returns (c: int)
    requires cfg.lexicon == Some(lexicon) && prefix != [] && k > 0 && Extends(cfg, lexicon, N, prefix, k, s)
    ensures var moves := ProposeFrom(cfg, true, [], seq(N, i => i), prefix[|prefix| - 1], 0);
      0 <= c < |moves| && Extends(cfg, lexicon, N, prefix + [moves[c]], k - 1, s)
  {
    hide ProposeFrom, Follows, Root;
    var n := |prefix|;
    var h := prefix[n - 1];
    assert Follows(cfg, lexicon, N, s[n - 1], s[n]);
    assert SameMove(h, s[..n][n - 1]);
    FollowsSame(cfg, lexicon, N, h, s[n - 1], s[n]);
    c := OneOf(cfg, lexicon, N, h, s[n]);
    assert s[..n + 1] == s[..n] + [s[n]];
  }

  lemma FollowsSame(cfg: Config, lexicon: seq<TrieNode>, N: nat, h: Node, h': Node, x: Node)
    requires SameMove(h, h') && Follows(cfg, lexicon, N, h', x)
    ensures Follows(cfg, lexicon, N, h, x)
  {
    hide Lookup;
  }

  /** A bound on f over the chains that go on for k moves. */
  lemma {:induction false} Bounded(cfg: Config, lexicon: seq<TrieNode>, N: nat, f: seq<Node> -> real,
                                   prefix: seq<Node>, k: nat) returns (bound: real)
    requires cfg.lexicon == Some(lexicon) && prefix != [] && forall a, b :: SameMoves(a, b) ==> f(a) == f(b)
    ensures bound >= 0.0 && forall s :: Extends(cfg, lexicon, N, prefix, k, s) ==> Free.Within(f(s), bound)
    decreases k
  {
    hide ProposeFrom, IsChain, SameMove;
    if k == 0 {
      bound := if f(prefix) >= 0.0 then f(prefix) else -f(prefix);
      forall s | Extends(cfg, lexicon, N, prefix, k, s) ensures Free.Within(f(s), bound) {
        assert s[..|prefix|] == s;
        assert f(s) == f(prefix);
      }
    } else {
      hide Extends, SameMoves;
      var moves := ProposeFrom(cfg, true, [], seq(N, i => i), prefix[|prefix| - 1], 0);
      bound := 0.0;
      for c := 0 to |moves|
        invariant bound >= 0.0
        invariant forall d, s :: 0 <= d < c && Extends(cfg, lexicon, N, prefix + [moves[d]], k - 1, s) ==>
          Free.Within(f(s), bound)
      {
        var b := Bounded(cfg, lexicon, N, f, prefix + [moves[c]], k - 1);
        bound := if b > bound then b else bound;
      }
      forall s | Extends(cfg, lexicon, N, prefix, k, s) ensures Free.Within(f(s), bound) {
        var c := NextMove(cfg, lexicon, N, prefix, k, s);
      }
    }
  }

  lemma BoundedUpTo(cfg: Config, lexicon: seq<TrieNode>, N: nat, f: seq<Node> -> real, n: nat) returns (bound: real)
    requires cfg.lexicon == Some(lexicon) && forall a, b :: SameMoves(a, b) ==> f(a) == f(b)
    ensures bound >= 0.0
    ensures forall s :: |s| <= n + 1 && IsChain(cfg, lexicon, N, s) ==> Free.Within(f(s), bound)
  {
    hide Follows, SameMoves;
    bound := 0.0;
    for t := 0 to n + 1
      invariant bound >= 0.0
      invariant forall s :: |s| <= t && IsChain(cfg, lexicon, N, s) ==> Free.Within(f(s), bound)
    {
      var b := Bounded(cfg, lexicon, N, f, [Root(cfg)], t);
      forall s | |s| == t + 1 && IsChain(cfg, lexicon, N, s) ensures Free.Within(f(s), b) {
        StartsAtRoot(cfg, lexicon, N, s);
      }
      bound := if b > bound then b else bound;
    }
  }

  lemma StartsAtRoot(cfg: Config, lexicon: seq<TrieNode>, N: nat, s: seq<Node>)
    requires IsChain(cfg, lexicon, N, s)
    ensures Extends(cfg, lexicon, N, [Root(cfg)], |s| - 1, s)
  {
    hide Follows;
  }

  lemma MostWords(lexicon: seq<TrieNode>) returns (W: nat)
    ensures FewWords(lexicon, W)
  {
    W := 0;
    for i := 0 to |lexicon|
      invariant forall k :: 0 <= k < i ==> |lexicon[k].labels| <= W
    {
      W := if |lexicon[i].labels| > W then |lexicon[i].labels| else W;
    }
  }

  /** Chains and objectives do not depend on the sizes of the search. */
  lemma SameChains(cfg: Config, lexicon: seq<TrieNode>, N: nat, K: nat, n: nat, threshold: real, rows: seq<seq<real>>,
                   path: seq<Node>)
    ensures var wide := Free.Widened(cfg, K, n, threshold);
      && (IsChain(wide, lexicon, N, path) <==> IsChain(cfg, lexicon, N, path))
      && ChainScore(wide, lexicon, rows, path) == ChainScore(cfg, lexicon, rows, path)
      && EndScore(wide, rows, path) == EndScore(cfg, rows, path)
  {
    hide ChainScore, EndScore, Lookup, Enters;
    var wide := Free.Widened(cfg, K, n, threshold);
    SameScores(cfg, lexicon, K, n, threshold, rows, path);
    forall h, x ensures Legal(wide, lexicon, h, x) <==> Legal(cfg, lexicon, h, x) { }
    assert forall k :: 1 <= k < |path| ==>
      (Follows(wide, lexicon, N, path[k - 1], path[k]) <==> Follows(cfg, lexicon, N, path[k - 1], path[k]));
  }

  lemma SameScores(cfg: Config, lexicon: seq<TrieNode>, K: nat, n: nat, threshold: real, rows: seq<seq<real>>,
                   path: seq<Node>)
    ensures var wide := Free.Widened(cfg, K, n, threshold);
      && ChainScore(wide, lexicon, rows, path) == ChainScore(cfg, lexicon, rows, path)
      && EndScore(wide, rows, path) == EndScore(cfg, rows, path)
  {
    hide Words, Eaten, LmState, LmScore, Smear, Count, DecoderScore.Times, Tokens;
    var wide := Free.Widened(cfg, K, n, threshold);
    SameSilence(cfg, wide, path);
    if path != [] {
      assert Acoustic(wide, rows, Tokens(path)) == Acoustic(cfg, rows, Tokens(path));
      assert WordBonus(wide, Words(path)) == WordBonus(cfg, Words(path));
      assert Read(wide, path) == Read(cfg, path);
      forall more ensures Objective(wide, rows, path, more) == Objective(cfg, rows, path, more) { }
    }
  }

  lemma {:induction false} SameSilence(cfg: Config, wide: Config, path: seq<Node>)
    requires wide.sil == cfg.sil && wide.lexicon == cfg.lexicon
    ensures SilenceFrames(wide, path) == SilenceFrames(cfg, path)
  {
    if |path| > 1 { SameSilence(cfg, wide, path[..|path| - 1]); }
  }

  /** For any decoder and any frames, some sizes are large enough. */
  lemma AmpleExists(cfg: Config, lexicon: seq<TrieNode>, N: nat, rows: seq<seq<real>>) returns (wide: Config, W: nat)
    requires cfg.lexicon == Some(lexicon) && forall t :: 0 <= t < |rows| ==> |rows[t]| == N
    ensures wide == Free.Widened(cfg, wide.beamSize, wide.beamSizeToken, wide.threshold)
    ensures Ample(wide, lexicon, N, W, rows)
  {
    hide ChainScore, EndScore, Free.Power, IsChain, FewWords, Fan;
    var f: seq<Node> -> real := s => ChainScore(cfg, lexicon, rows, s);
    var g: seq<Node> -> real := s => EndScore(cfg, rows, s);
    forall a, b | SameMoves(a, b) ensures f(a) == f(b) && g(a) == g(b) { ScoresDecided(cfg, lexicon, rows, a, b); }
    var b := BoundedUpTo(cfg, lexicon, N, f, |rows|);
    var c := BoundedUpTo(cfg, lexicon, N, g, |rows|);
    W := MostWords(lexicon);
    var K := Free.PowersWithin(Fan(N, W), |rows|);
    var threshold := 2.0 * b + 2.0 * c;
    wide := Free.Widened(cfg, K, N, threshold);
    forall x, y | Comparable(wide, lexicon, N, rows, x, y)
      ensures ChainScore(wide, lexicon, rows, x) >= ChainScore(wide, lexicon, rows, y) - threshold
    {
      SameChains(cfg, lexicon, N, K, N, threshold, rows, x);
      SameChains(cfg, lexicon, N, K, N, threshold, rows, y);
      assert Free.Within(f(x), b) && Free.Within(f(y), b);
    }
    forall x, y | IsWhole(wide, lexicon, N, rows, x) && IsWhole(wide, lexicon, N, rows, y)
      ensures EndScore(wide, rows, x) >= EndScore(wide, rows, y) - threshold
    {
      SameChains(cfg, lexicon, N, K, N, threshold, rows, x);
      SameChains(cfg, lexicon, N, K, N, threshold, rows, y);
      assert Free.Within(g(x), c) && Free.Within(g(y), c);
    }
  }

  // ---- The decoder is exact

  /** With sizes large enough, the first final hypothesis ends a chain that maximises the
      documented objective, end of the sentence included, over all chains the lexicon allows. */
  lemma LexDecodeIsExact(cfg: Config, lexicon: seq<TrieNode>, N: nat, W: nat, rows: seq<seq<real>>, m: Machine,
                         m': Machine) returns (best: seq<Node>)
    requires IsDecoding(cfg, lexicon, rows, m) && Ends(cfg, m, m') && Ample(cfg, lexicon, N, W, rows)
    ensures m'.beams[|rows| + 1] != [] && IsRef(m.beams, |rows|, m'.beams[|rows| + 1][0].parent)
    ensures best == Chain(m.beams, |rows|, m'.beams[|rows| + 1][0].parent) && IsWhole(cfg, lexicon, N, rows, best)
    ensures m'.beams[|rows| + 1][0].score == EndScore(cfg, rows, best)
    ensures forall path :: IsWhole(cfg, lexicon, N, rows, path) ==>
              EndScore(cfg, rows, path) <= EndScore(cfg, rows, best)
  {
    hide LosslessRun, LosslessEnd, IsWhole, EndScore, Chain, Ample, StepAt, NoLoops, IsLexicon, FinalStep, Chained;
    AmpleIsLossless(cfg, lexicon, N, W, rows, m);
    AmpleEndIsLossless(cfg, lexicon, N, W, rows, m);
    best := LosslessIsExact(cfg, lexicon, N, rows, m, m');
  }
}
