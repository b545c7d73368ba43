/** What the score of a hypothesis means: the objective both decoders document,
    as a function of the frames and of the chain of hypotheses alone. */
module DecoderScore {
  import opened Scores
  import opened Wrappers
  import opened Candidates
  import opened BeamStore
  import opened Decoder
  import opened History
  import opened Online
  import Viterbi

  // ---- The terms of the objective, for a chain of hypotheses (the first is the start)

  function Tokens(path: seq<Node>): seq<int>
    requires path != []
  {
    seq(|path| - 1, j requires 0 <= j < |path| - 1 => path[j + 1].token)
  }

  /** Acoustic score: emissions, and transitions for ASG. */
  function Acoustic(cfg: Config, rows: seq<seq<real>>, tokens: seq<int>): real {
    Viterbi.Score(rows, if cfg.criterion == ASG then cfg.trans else [], tokens)
  }

  /** Frames of silence; a CTC blank of the lexicon decoder is never one. */
  function SilenceFrames(cfg: Config, path: seq<Node>): nat {
    if |path| <= 1 then 0
    else
      var n := |path| - 1;
      SilenceFrames(cfg, path[..n]) + if IsSilence(cfg, path[n]) then 1 else 0
  }

  predicate IsSilence(cfg: Config, x: Node) {
    x.token == cfg.sil && !(cfg.lexicon.Some? && x.prevBlank)
  }

  function Words(path: seq<Node>): seq<int> {
    if path == [] then []
    else
      var n := |path| - 1;
      if path[n].word == -1 then Words(path[..n]) else Words(path[..n]) + [path[n].word]
  }

  /** Going from h to x took a new token: x moved in the trie or ended a word. */
  predicate Eats(h: Node, x: Node) {
    x.word != -1 || x.lex != h.lex
  }

  /** All tokens eaten. */
  function Eaten(path: seq<Node>): seq<int> {
    if |path| <= 1 then []
    else
      var n := |path| - 1;
      if Eats(path[n - 1], path[n]) then Eaten(path[..n]) + [path[n].token] else Eaten(path[..n])
  }

  /** What the language model has read: the words, or token by token what was eaten. */
  function Read(cfg: Config, path: seq<Node>): seq<int> {
    if cfg.isLmToken then Eaten(path) else Words(path)
  }

  /** The look-ahead included in the score of a hypothesis on a trie node. */
  function Ahead(cfg: Config, lexicon: seq<TrieNode>, lex: int): real {
    if cfg.isLmToken then 0.0 else Smear(lexicon, lex)
  }

  /** State and total score after a sentence. */
  function LmState(lm: LM, words: seq<int>): int {
    if words == [] then lm.start else lm.score(LmState(lm, words[..|words| - 1]), words[|words| - 1]).0
  }

  function LmScore(lm: LM, words: seq<int>): real {
    if words == [] then 0.0
    else
      var n := |words| - 1;
      LmScore(lm, words[..n]) + lm.score(LmState(lm, words[..n]), words[n]).1
  }

  function Count(words: seq<int>, w: int): (n: nat)
    ensures n <= |words|
  {
    if words == [] then 0 else Count(words[..|words| - 1], w) + if words[|words| - 1] == w then 1 else 0
  }

  function Times(n: nat, x: real): real {
    n as real * x
  }

  function UnknownBonus(cfg: Config): real {
    if cfg.unkScore.Some? then cfg.unkScore.value else 0.0
  }

  /** wordScore per known word, unkScore per unknown one. */
  function WordBonus(cfg: Config, words: seq<int>): real {
    Times(|words| - Count(words, cfg.unk), cfg.wordScore) + Times(Count(words, cfg.unk), UnknownBonus(cfg))
  }

  // ---- Each term after one more hypothesis

  lemma TokensSnoc(path: seq<Node>, x: Node)
    requires path != []
    ensures Tokens(path + [x]) == Tokens(path) + [x.token]
  {
  }

  lemma AcousticSnoc(cfg: Config, rows: seq<seq<real>>, tokens: seq<int>, prev: int, n: int)
    requires |tokens| < |rows| && (tokens != [] ==> prev == tokens[|tokens| - 1])
    ensures Acoustic(cfg, rows, tokens + [n]) == Acoustic(cfg, rows, tokens) + Emission(rows[|tokens|], n)
      + (if tokens != [] && cfg.criterion == ASG then At(cfg.trans, n, prev) else 0.0)
  {
    hide Viterbi.Score;
    Viterbi.ScoreSnoc(rows, if cfg.criterion == ASG then cfg.trans else [], tokens, n);
  }

  lemma SilenceSnoc(cfg: Config, path: seq<Node>, x: Node)
    requires path != []
    ensures SilenceFrames(cfg, path + [x]) == SilenceFrames(cfg, path) + if IsSilence(cfg, x) then 1 else 0
  {
    assert (path + [x])[..|path|] == path;
  }

  lemma WordsSnoc(path: seq<Node>, x: Node)
    ensures Words(path + [x]) == if x.word == -1 then Words(path) else Words(path) + [x.word]
  {
    assert (path + [x])[..|path|] == path;
  }

  lemma EatenSnoc(path: seq<Node>, x: Node)
    requires path != []
    ensures Eaten(path + [x]) == if Eats(path[|path| - 1], x) then Eaten(path) + [x.token] else Eaten(path)
  {
    assert (path + [x])[..|path|] == path;
  }

  lemma LmSnoc(lm: LM, words: seq<int>, w: int)
    ensures LmState(lm, words + [w]) == lm.score(LmState(lm, words), w).0
    ensures LmScore(lm, words + [w]) == LmScore(lm, words) + lm.score(LmState(lm, words), w).1
  {
    assert (words + [w])[..|words|] == words;
  }

  lemma CountSnoc(words: seq<int>, v: int, w: int)
    ensures Count(words + [v], w) == Count(words, w) + if v == w then 1 else 0
  {
    assert (words + [v])[..|words|] == words;
  }

  lemma TimesNext(n: nat, x: real)
    ensures Times(n + 1, x) == Times(n, x) + x && Times(0, x) == 0.0
  {
  }

  lemma BonusSnoc(cfg: Config, words: seq<int>, w: int)
    ensures WordBonus(cfg, words + [w]) == WordBonus(cfg, words) + if w == cfg.unk then UnknownBonus(cfg)
      else cfg.wordScore
  {
    hide Times, Count;
    CountSnoc(words, w, cfg.unk);
    TimesNext(|words| - Count(words, cfg.unk), cfg.wordScore);
    TimesNext(Count(words, cfg.unk), UnknownBonus(cfg));
  }

  // ---- One frame with a lexicon

  /** A trie: no edge leads to the root, and the words in it are neither the
      unknown word nor "no word". */
  ghost predicate IsLexicon(unk: int, lexicon: seq<TrieNode>) {
    && unk != -1
    && (forall i, w :: 0 <= i < |lexicon| && w in lexicon[i].labels ==> w != -1 && w != unk)
    && (forall i, n :: 0 <= i < |lexicon| && n in lexicon[i].children ==> lexicon[i].children[n] != 0)
  }

  /** No edge of the trie leads back to its own node. */
  ghost predicate NoLoops(lexicon: seq<TrieNode>) {
    forall i, n :: 0 <= i < |lexicon| && n in lexicon[i].children ==> lexicon[i].children[n] != i
  }

  /** The decoder uses this lexicon. */
  ghost predicate Uses(cfg: Config, lexicon: seq<TrieNode>) {
    cfg.lexicon == Some(lexicon) && IsLexicon(cfg.unk, lexicon) && (cfg.isLmToken ==> NoLoops(lexicon))
  }

  function AcousticPart(cfg: Config, first: bool, row: seq<real>, h: Node, x: Node): real {
    Emission(row, x.token) + (if !first && cfg.criterion == ASG then At(cfg.trans, x.token, h.token) else 0.0)
    + (if IsSilence(cfg, x) then cfg.silScore else 0.0)
  }

  function BonusOf(cfg: Config, word: int): real {
    if word == -1 then 0.0 else if word == cfg.unk then UnknownBonus(cfg) else cfg.wordScore
  }

  /** What extending h to x pays: the language model is asked for what it reads on the way,
      and the look-ahead of h gives way to that of x. */
  ghost predicate Paid(cfg: Config, lexicon: seq<TrieNode>, first: bool, row: seq<real>, h: Node, x: Node) {
    && (x.word != -1 ==> x.lex == 0)
    && var asked := if cfg.isLmToken then Eats(h, x) else x.word != -1;
       var (state, lmScore) := if asked then cfg.lm.score(h.lm, if cfg.isLmToken then x.token else x.word)
                               else (h.lm, 0.0);
       && x.lm == state
       && x.score == h.score + AcousticPart(cfg, first, row, h, x) + BonusOf(cfg, x.word)
            + Weighted(cfg, lmScore + Ahead(cfg, lexicon, x.lex) - Ahead(cfg, lexicon, h.lex))
  }

  ghost predicate AllPaid(cfg: Config, lexicon: seq<TrieNode>, first: bool, row: seq<real>, h: Node, s: seq<Node>) {
    forall i :: 0 <= i < |s| ==> Paid(cfg, lexicon, first, row, h, s[i])
  }

  lemma RootSmear(lexicon: seq<TrieNode>)
    ensures Smear(lexicon, 0) == 0.0
  {
  }

  lemma WordPaid(cfg: Config, lexicon: seq<TrieNode>, first: bool, row: seq<real>, h: Node, j: int, n: int, w: int)
    requires cfg.lexicon == Some(lexicon) && w != -1
    ensures Paid(cfg, lexicon, first, row, h,
      ProposeWord(cfg, lexicon, h.score + AcousticStep(cfg, first, row, h.token, n), h, j, n, w, BonusOf(cfg, w)))
  {
    hide Weighted, Smear, Emission, At, UnknownBonus;
    RootSmear(lexicon);
    if cfg.isLmToken {
      var l := cfg.lm.score(h.lm, n).1;
      assert l + 0.0 - 0.0 == l;
    } else {
      var l := cfg.lm.score(h.lm, w).1;
      assert l + 0.0 - Smear(lexicon, h.lex) == l - Smear(lexicon, h.lex);
    }
  }

  lemma ChildPaid(cfg: Config, lexicon: seq<TrieNode>, first: bool, row: seq<real>, h: Node, j: int, n: int, child: int)
    requires cfg.lexicon == Some(lexicon) && child != 0 && (cfg.isLmToken ==> child != h.lex)
    ensures AllPaid(cfg, lexicon, first, row, h,
      ProposeChild(cfg, lexicon, h.score + AcousticStep(cfg, first, row, h.token, n), h, j, n, child))
  {
    hide Weighted, Emission, At, Lookup;
    if cfg.isLmToken {
      var l := cfg.lm.score(h.lm, n).1;
      assert l + 0.0 - 0.0 == l;
    } else {
      var to, from := Lookup(lexicon, child).maxScore, Smear(lexicon, h.lex);
      assert 0.0 + to - from == to - from;
    }
  }

  lemma WordsPaid(cfg: Config, lexicon: seq<TrieNode>, first: bool, row: seq<real>, h: Node, j: int, n: int,
                  labels: seq<int>)
    requires cfg.lexicon == Some(lexicon) && cfg.unk != -1
    requires forall w :: w in labels ==> w != -1 && w != cfg.unk
    ensures var score := h.score + AcousticStep(cfg, first, row, h.token, n);
      && AllPaid(cfg, lexicon, first, row, h, ProposeWords(cfg, lexicon, score, h, j, n, labels))
      && AllPaid(cfg, lexicon, first, row, h, ProposeUnknown(cfg, lexicon, score, h, j, n, labels))
  {
    hide Paid, ProposeWord, AcousticStep;
    var words := ProposeWords(cfg, lexicon, h.score + AcousticStep(cfg, first, row, h.token, n), h, j, n, labels);
    forall i | 0 <= i < |words| ensures Paid(cfg, lexicon, first, row, h, words[i]) {
      assert labels[i] in labels;
      WordPaid(cfg, lexicon, first, row, h, j, n, labels[i]);
    }
    WordPaid(cfg, lexicon, first, row, h, j, n, cfg.unk);
  }

  lemma LexPaid(cfg: Config, lexicon: seq<TrieNode>, first: bool, row: seq<real>, h: Node, j: int, n: int)
    requires Uses(cfg, lexicon)
    ensures AllPaid(cfg, lexicon, first, row, h, ProposeLex(cfg, lexicon, first, row, h, j, n))
  {
    hide Paid, ProposeChild, ProposeWords, ProposeUnknown, AcousticStep;
    if n in Lookup(lexicon, h.lex).children {
      var child := Lookup(lexicon, h.lex).children[n];
      ChildPaid(cfg, lexicon, first, row, h, j, n, child);
      WordsPaid(cfg, lexicon, first, row, h, j, n, Lookup(lexicon, child).labels);
    }
  }

  lemma StayPaid(cfg: Config, lexicon: seq<TrieNode>, first: bool, row: seq<real>, h: Node, j: int)
    requires cfg.lexicon == Some(lexicon)
    ensures AllPaid(cfg, lexicon, first, row, h, ProposeStay(cfg, first, row, h, j))
  {
    hide Smear, Emission, At, Weighted;
    var a := Ahead(cfg, lexicon, h.lex);
    assert 0.0 + a - a == 0.0;
    NothingWeighted(cfg);
  }

  lemma NothingWeighted(cfg: Config)
    ensures Weighted(cfg, 0.0) == 0.0
  {
  }

  lemma {:induction false} TokensPaid(cfg: Config, lexicon: seq<TrieNode>, first: bool, row: seq<real>,
                                      tokens: seq<int>, h: Node, j: int)
    requires Uses(cfg, lexicon)
    ensures AllPaid(cfg, lexicon, first, row, h, ProposeTokens(cfg, first, row, tokens, h, j))
  {
    hide Paid, ProposeLex, IsLexicon, NoLoops;
    if tokens != [] {
      TokensPaid(cfg, lexicon, first, row, tokens[..|tokens| - 1], h, j);
      LexPaid(cfg, lexicon, first, row, h, j, tokens[|tokens| - 1]);
    }
  }

  lemma FromPaid(cfg: Config, lexicon: seq<TrieNode>, first: bool, row: seq<real>, tokens: seq<int>, h: Node, j: int,
                 x: Node)
    requires Uses(cfg, lexicon) && x in ProposeFrom(cfg, first, row, tokens, h, j)
    ensures Paid(cfg, lexicon, first, row, h, x)
  {
    hide Paid, ProposeTokens, ProposeStay, IsLexicon, NoLoops;
    TokensPaid(cfg, lexicon, first, row, tokens, h, j);
    StayPaid(cfg, lexicon, first, row, h, j);
  }

  /** A proposal comes from the hypothesis its parent field names. */
  lemma {:induction false} ProposedBy(cfg: Config, first: bool, row: seq<real>, tokens: seq<int>, beam: seq<Node>,
                                      x: Node)
    requires x in ProposeAll(cfg, first, row, tokens, beam)
    ensures 0 <= x.parent < |beam| && x in ProposeFrom(cfg, first, row, tokens, beam[x.parent], x.parent)
  {
    hide ProposeFrom;
    var n := |beam| - 1;
    FromParent(cfg, first, row, tokens, beam[n], n);
    if x in ProposeAll(cfg, first, row, tokens, beam[..n]) {
      ProposedBy(cfg, first, row, tokens, beam[..n], x);
    }
  }

  /** Without log-add, each hypothesis of a new beam extends its parent. */
  lemma FrameExtends(cfg: Config, first: bool, row: seq<real>, beam: seq<Node>, out: seq<Node>, x: Node)
    returns (tokens: seq<int>)
    requires cfg.merge == TakeMax && FrameStep(cfg, first, row, beam, out) && x in out
    ensures TokenChoice(row, cfg.beamSizeToken, tokens)
    ensures 0 <= x.parent < |beam| && x in ProposeFrom(cfg, first, row, tokens, beam[x.parent], x.parent)
  {
    hide ProposeAll, ProposeFrom, Stored, TokenChoice;
    tokens :| TokenChoice(row, cfg.beamSizeToken, tokens)
      && Stored(cfg.merge, cfg.beamSize, cfg.threshold, ProposeAll(cfg, first, row, tokens, beam), false, out);
    StoredIsProposed(cfg.beamSize, cfg.threshold, ProposeAll(cfg, first, row, tokens, beam), false, out, x);
    ProposedBy(cfg, first, row, tokens, beam, x);
  }

  // ---- Whole chains

  /** The hypotheses from the start to hypothesis i of frame k. */
  ghost function Chain(beams: seq<seq<Node>>, k: int, i: int): (path: seq<Node>)
    requires Chained(beams) && IsRef(beams, k, i)
    ensures |path| == k + 1 && path[k] == beams[k][i]
    decreases k
  {
    if k == 0 then [beams[0][i]]
    else
      assert Linked(beams[k], |beams[k - 1]|);
      Chain(beams, k - 1, beams[k][i].parent) + [beams[k][i]]
  }

  /** The chain is what is read back. */
  lemma {:induction false} ChainIsHistory(beams: seq<seq<Node>>, k: int, i: int, j: int)
    requires Chained(beams) && IsRef(beams, k, i) && 0 <= j <= k
    ensures Chain(beams, k, i)[j] == beams[j][Ancestor(beams, k, i, j)]
    decreases k
  {
    if j < k {
      assert Linked(beams[k], |beams[k - 1]|);
      ChainIsHistory(beams, k - 1, beams[k][i].parent, j);
    }
  }

  /** The documented objective; more is what a word still being spelled or the end of the
      sentence is worth to the language model. */
  function Objective(cfg: Config, rows: seq<seq<real>>, path: seq<Node>, more: real): real
    requires path != []
  {
    Acoustic(cfg, rows, Tokens(path)) + Times(SilenceFrames(cfg, path), cfg.silScore)
    + WordBonus(cfg, Words(path)) + cfg.lmWeight * (LmScore(cfg.lm, Read(cfg, path)) + more)
  }

  ghost predicate Accounted(cfg: Config, lexicon: seq<TrieNode>, rows: seq<seq<real>>, path: seq<Node>) {
    && path != []
    && var x := path[|path| - 1];
       && x.lm == LmState(cfg.lm, Read(cfg, path))
       && x.score == Objective(cfg, rows, path, Ahead(cfg, lexicon, x.lex))
  }

  lemma WeightedIs(cfg: Config, x: real)
    ensures Weighted(cfg, x) == cfg.lmWeight * x
  {
  }

  lemma WeightedAdd(cfg: Config, a: real, b: real)
    ensures Weighted(cfg, a) + Weighted(cfg, b) == Weighted(cfg, a + b)
  {
  }

  /** What one more hypothesis adds to the language-model part. */
  lemma ReadNext(cfg: Config, lexicon: seq<TrieNode>, path: seq<Node>, x: Node, lmScore: real)
    requires path != [] && (x.word != -1 ==> x.lex == 0)
    requires var h := path[|path| - 1];
      lmScore == if (if cfg.isLmToken then Eats(h, x) else x.word != -1)
        then cfg.lm.score(LmState(cfg.lm, Read(cfg, path)), if cfg.isLmToken then x.token else x.word).1 else 0.0
    ensures Weighted(cfg, LmScore(cfg.lm, Read(cfg, path + [x])) + Ahead(cfg, lexicon, x.lex))
      == Weighted(cfg, LmScore(cfg.lm, Read(cfg, path)) + Ahead(cfg, lexicon, path[|path| - 1].lex))
         + Weighted(cfg, lmScore + Ahead(cfg, lexicon, x.lex) - Ahead(cfg, lexicon, path[|path| - 1].lex))
  {
    hide LmScore, LmState, Weighted, Smear, Words, Eaten;
    var h := path[|path| - 1];
    WordsSnoc(path, x);
    EatenSnoc(path, x);
    LmSnoc(cfg.lm, Read(cfg, path), if cfg.isLmToken then x.token else x.word);
    var a, b, l := Ahead(cfg, lexicon, h.lex), Ahead(cfg, lexicon, x.lex), LmScore(cfg.lm, Read(cfg, path));
    WeightedAdd(cfg, l + a, lmScore + b - a);
    assert (l + a) + (lmScore + b - a) == (l + lmScore) + b;
    assert LmScore(cfg.lm, Read(cfg, path + [x])) == l + lmScore;
  }

  lemma ReadState(cfg: Config, path: seq<Node>, x: Node)
    requires path != []
    ensures LmState(cfg.lm, Read(cfg, path + [x]))
      == var h := path[|path| - 1];
         if (if cfg.isLmToken then Eats(h, x) else x.word != -1)
         then cfg.lm.score(LmState(cfg.lm, Read(cfg, path)), if cfg.isLmToken then x.token else x.word).0
         else LmState(cfg.lm, Read(cfg, path))
  {
    hide LmScore, LmState, Words, Eaten;
    WordsSnoc(path, x);
    EatenSnoc(path, x);
    LmSnoc(cfg.lm, Read(cfg, path), if cfg.isLmToken then x.token else x.word);
  }

  lemma BonusNext(cfg: Config, path: seq<Node>, x: Node)
    ensures WordBonus(cfg, Words(path + [x])) == WordBonus(cfg, Words(path)) + BonusOf(cfg, x.word)
  {
    hide WordBonus, Words, UnknownBonus;
    WordsSnoc(path, x);
    if x.word != -1 { BonusSnoc(cfg, Words(path), x.word); }
  }

  lemma ObjectiveWeighted(cfg: Config, rows: seq<seq<real>>, path: seq<Node>, more: real)
    requires path != []
    ensures Objective(cfg, rows, path, more) == Acoustic(cfg, rows, Tokens(path))
      + Times(SilenceFrames(cfg, path), cfg.silScore) + WordBonus(cfg, Words(path))
      + Weighted(cfg, LmScore(cfg.lm, Read(cfg, path)) + more)
  {
    hide Acoustic, SilenceFrames, WordBonus, LmScore, Words, Times, Read;
  }

  lemma AccountedNext(cfg: Config, lexicon: seq<TrieNode>, rows: seq<seq<real>>, path: seq<Node>, x: Node)
    requires Accounted(cfg, lexicon, rows, path) && |path| <= |rows|
    requires Paid(cfg, lexicon, |path| == 1, rows[|path| - 1], path[|path| - 1], x)
    ensures Accounted(cfg, lexicon, rows, path + [x])
  {
    hide Acoustic, SilenceFrames, WordBonus, LmScore, LmState, Weighted, Ahead, Words, Times, Emission, At,
         BonusOf, Read, IsSilence, Objective;
    var h, tokens := path[|path| - 1], Tokens(path);
    TokensSnoc(path, x);
    AcousticSnoc(cfg, rows, tokens, h.token, x.token);
    SilenceSnoc(cfg, path, x);
    TimesNext(SilenceFrames(cfg, path), cfg.silScore);
    BonusNext(cfg, path, x);
    ReadState(cfg, path, x);
    ObjectiveWeighted(cfg, rows, path, Ahead(cfg, lexicon, h.lex));
    ObjectiveWeighted(cfg, rows, path + [x], Ahead(cfg, lexicon, x.lex));
    var asked := if cfg.isLmToken then Eats(h, x) else x.word != -1;
    ReadNext(cfg, lexicon, path, x,
             if asked then cfg.lm.score(h.lm, if cfg.isLmToken then x.token else x.word).1 else 0.0);
  }

  lemma StartAccounted(cfg: Config, lexicon: seq<TrieNode>, rows: seq<seq<real>>)
    ensures Accounted(cfg, lexicon, rows, [Begin(cfg).beams[0][0]])
  {
    var path := [Begin(cfg).beams[0][0]];
    WordsSnoc([], path[0]);
    assert [] + [path[0]] == path;
    assert Words(path) == [] == Eaten(path);
    assert Tokens(path) == [];
  }

  /** In every frame of every decoding with a lexicon, whatever the beams dropped, the
      score of a hypothesis is the documented objective of its chain: the smeared
      look-ahead telescopes away except for the word still being spelled. A token-level
      language model has read what the chain ate instead of its words. */
  lemma {:induction false} LexiconObjective(cfg: Config, lexicon: seq<TrieNode>, rows: seq<seq<real>>, m: Machine,
                                            k: int, i: int)
    requires Uses(cfg, lexicon) && cfg.merge == TakeMax
    requires Sound(m) && Steps(cfg, Begin(cfg), rows, m) && IsRef(m.beams, k, i)
    ensures Accounted(cfg, lexicon, rows, Chain(m.beams, k, i))
    decreases k
  {
    hide Accounted, Paid, Uses, FrameStep, ProposeFrom, TokenChoice;
    var start := Begin(cfg);
    assert m.beams[0] == m.beams[..1][0] == start.beams[0];
    if k == 0 {
      StartAccounted(cfg, lexicon, rows);
    } else {
      assert Linked(m.beams[k], |m.beams[k - 1]|);
      var x := m.beams[k][i];
      var path := Chain(m.beams, k - 1, x.parent);
      LexiconObjective(cfg, lexicon, rows, m, k - 1, x.parent);
      assert StepAt(cfg, start, rows, m.beams, k - 1);
      var tokens := FrameExtends(cfg, k == 1, rows[k - 1], m.beams[k - 1], m.beams[k], x);
      FromPaid(cfg, lexicon, k == 1, rows[k - 1], tokens, m.beams[k - 1][x.parent], x.parent, x);
      AccountedNext(cfg, lexicon, rows, path, x);
    }
  }

  /** With a token-level language model there is no look-ahead: its state and score are
      those of the tokens eaten, one by one. */
  lemma TokenLevelObjective(cfg: Config, lexicon: seq<TrieNode>, rows: seq<seq<real>>, m: Machine, k: int, i: int)
    requires Uses(cfg, lexicon) && cfg.merge == TakeMax && cfg.isLmToken
    requires Sound(m) && Steps(cfg, Begin(cfg), rows, m) && IsRef(m.beams, k, i)
    ensures var path, x := Chain(m.beams, k, i), m.beams[k][i];
      && x.lm == LmState(cfg.lm, Eaten(path))
      && x.score == Acoustic(cfg, rows, Tokens(path)) + Times(SilenceFrames(cfg, path), cfg.silScore)
           + WordBonus(cfg, Words(path)) + cfg.lmWeight * LmScore(cfg.lm, Eaten(path))
  {
    hide Uses, StepAt, Chained, Acoustic, SilenceFrames, WordBonus, Weighted, LmScore, LmState, Eaten, Words, Times;
    LexiconObjective(cfg, lexicon, rows, m, k, i);
    var l := LmScore(cfg.lm, Eaten(Chain(m.beams, k, i)));
    assert l + 0.0 == l;
  }

  lemma {:induction false} FinalBy(cfg: Config, nice: bool, beam: seq<Node>, y: Node)
    requires y in ProposeFinals(cfg, nice, beam)
    ensures 0 <= y.parent < |beam| && y == ProposeFinal(cfg, beam[y.parent], y.parent) && (nice ==> y.lex == 0)
  {
    var n := |beam| - 1;
    if y in ProposeFinals(cfg, nice, beam[..n]) { FinalBy(cfg, nice, beam[..n], y); }
  }

  /** y ends the chain: its score is the objective of the whole sentence, end included,
      with nothing of the look-ahead left when some hypothesis ended on a word. */
  ghost predicate Finished(cfg: Config, lexicon: seq<TrieNode>, rows: seq<seq<real>>, path: seq<Node>, nice: bool,
                           y: Node) {
    && path != []
    && var finish := cfg.lm.finish(LmState(cfg.lm, Read(cfg, path))).1;
       && y.score == Objective(cfg, rows, path, finish + Ahead(cfg, lexicon, y.lex))
       && (nice ==> y.score == Objective(cfg, rows, path, finish))
  }

  /** Every final hypothesis scores the documented objective of its sentence. */
  lemma FinalObjective(cfg: Config, lexicon: seq<TrieNode>, rows: seq<seq<real>>, m: Machine, m': Machine, y: Node)
    requires Uses(cfg, lexicon) && cfg.merge == TakeMax
    requires Sound(m) && Steps(cfg, Begin(cfg), rows, m) && Ends(cfg, m, m') && y in m'.beams[|rows| + 1]
    ensures IsRef(m.beams, |rows|, y.parent)
    ensures Finished(cfg, lexicon, rows, Chain(m.beams, |rows|, y.parent), NiceEnding(cfg, m.beams[|rows|]), y)
  {
    hide Finished, Accounted, Uses, StepAt, Chain, Chained, FinalStep, ProposeFinal, NiceEnding;
    FinalParent(cfg, m.beams[|rows|], m'.beams[|rows| + 1], y);
    LexiconObjective(cfg, lexicon, rows, m, |rows|, y.parent);
    FinishAccounted(cfg, lexicon, rows, Chain(m.beams, |rows|, y.parent), y.parent, NiceEnding(cfg, m.beams[|rows|]),
                    y);
  }

  /** Without log-add, a final hypothesis is a finished one of the last beam. */
  lemma FinalParent(cfg: Config, beam: seq<Node>, out: seq<Node>, y: Node)
    requires cfg.merge == TakeMax && FinalStep(cfg, beam, out) && y in out
    ensures 0 <= y.parent < |beam| && y == ProposeFinal(cfg, beam[y.parent], y.parent)
    ensures NiceEnding(cfg, beam) ==> y.lex == 0
  {
    hide ProposeFinals, Stored, NiceEnding;
    var nice := NiceEnding(cfg, beam);
    StoredIsProposed(cfg.beamSize, cfg.threshold, ProposeFinals(cfg, nice, beam), true, out, y);
    FinalBy(cfg, nice, beam, y);
  }

  /** The end of the sentence adds its own language-model score. */
  lemma FinishAccounted(cfg: Config, lexicon: seq<TrieNode>, rows: seq<seq<real>>, path: seq<Node>, j: int,
                        nice: bool, y: Node)
    requires Accounted(cfg, lexicon, rows, path) && y == ProposeFinal(cfg, path[|path| - 1], j) && (nice ==> y.lex == 0)
    ensures Finished(cfg, lexicon, rows, path, nice, y)
  {
    hide Acoustic, SilenceFrames, WordBonus, LmScore, LmState, Weighted, Smear, Words, Times, Tokens, Read;
    var finish := cfg.lm.finish(LmState(cfg.lm, Read(cfg, path))).1;
    var before := LmScore(cfg.lm, Read(cfg, path)) + Ahead(cfg, lexicon, y.lex);
    WeightedAdd(cfg, before, finish);
    WeightedIs(cfg, before);
    WeightedIs(cfg, before + finish);
    assert before + finish == LmScore(cfg.lm, Read(cfg, path)) + (finish + Ahead(cfg, lexicon, y.lex));
    RootSmear(lexicon);
  }
}
