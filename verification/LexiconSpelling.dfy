/** With a lexicon, what a hypothesis has passed spells its words. */
module LexiconSpelling {
  import opened Transforms
  import opened Wrappers
  import opened Candidates
  import opened BeamStore
  import opened Decoder
  import opened History
  import opened Online
  import opened DecoderScore

  // ---- Following tokens down the trie

  /** The node a token sequence leads to, -1 if none. */
  function Walk(lexicon: seq<TrieNode>, tokens: seq<int>): int {
    if tokens == [] then 0
    else
      var n := |tokens| - 1;
      var node := Walk(lexicon, tokens[..n]);
      if tokens[n] in Lookup(lexicon, node).children then Lookup(lexicon, node).children[tokens[n]] else -1
  }

  lemma WalkSnoc(lexicon: seq<TrieNode>, tokens: seq<int>, n: int)
    ensures Walk(lexicon, tokens + [n])
      == var node := Walk(lexicon, tokens);
         if n in Lookup(lexicon, node).children then Lookup(lexicon, node).children[n] else -1
  {
    assert (tokens + [n])[..|tokens|] == tokens;
  }

  /** The tokens follow edges of the trie all the way. */
  predicate HasPath(lexicon: seq<TrieNode>, tokens: seq<int>) {
    tokens == [] || (var n := |tokens| - 1;
      HasPath(lexicon, tokens[..n]) && tokens[n] in Lookup(lexicon, Walk(lexicon, tokens[..n])).children)
  }

  lemma PathSnoc(lexicon: seq<TrieNode>, tokens: seq<int>, n: int)
    ensures HasPath(lexicon, tokens + [n])
       <==> HasPath(lexicon, tokens) && n in Lookup(lexicon, Walk(lexicon, tokens)).children
  {
    assert (tokens + [n])[..|tokens|] == tokens;
  }

  /** The lexicon has this word under this spelling; the unknown word stands for any
      path that spells no word. */
  predicate Spells(cfg: Config, lexicon: seq<TrieNode>, spelling: seq<int>, word: int) {
    spelling != [] && HasPath(lexicon, spelling) && var labels := Lookup(lexicon, Walk(lexicon, spelling)).labels;
    word in labels || (labels == [] && cfg.unkScore.Some? && word == cfg.unk)
  }

  // ---- What a chain of hypotheses has eaten

  /** The tokens eaten since the last word ended. */
  function Since(path: seq<Node>): seq<int> {
    if |path| <= 1 then []
    else
      var n := |path| - 1;
      if path[n].word != -1 then []
      else if Eats(path[n - 1], path[n]) then Since(path[..n]) + [path[n].token] else Since(path[..n])
  }

  /** The tokens eaten for each word. */
  function Spellings(path: seq<Node>): seq<seq<int>> {
    if |path| <= 1 then []
    else
      var n := |path| - 1;
      if path[n].word != -1 then Spellings(path[..n]) + [Since(path[..n]) + [path[n].token]] else Spellings(path[..n])
  }

  function Flatten(s: seq<seq<int>>): seq<int> {
    if s == [] then [] else Flatten(s[..|s| - 1]) + s[|s| - 1]
  }

  lemma FlattenSnoc(s: seq<seq<int>>, x: seq<int>)
    ensures Flatten(s + [x]) == Flatten(s) + x
  {
    assert (s + [x])[..|s|] == s;
  }

  /** Nothing eaten is lost between the words. */
  lemma {:induction false} EatenSplits(path: seq<Node>)
    ensures Eaten(path) == Flatten(Spellings(path)) + Since(path)
  {
    if |path| > 1 {
      var n := |path| - 1;
      EatenSplits(path[..n]);
      if path[n].word != -1 { FlattenSnoc(Spellings(path[..n]), Since(path[..n]) + [path[n].token]); }
    }
  }

  lemma SinceSnoc(path: seq<Node>, x: Node)
    requires path != []
    ensures Since(path + [x])
      == if x.word != -1 then [] else if Eats(path[|path| - 1], x) then Since(path) + [x.token] else Since(path)
  {
    assert (path + [x])[..|path|] == path;
  }

  lemma SpellingsSnoc(path: seq<Node>, x: Node)
    requires path != []
    ensures Spellings(path + [x]) == if x.word != -1 then Spellings(path) + [Since(path) + [x.token]]
      else Spellings(path)
  {
    hide Since;
    assert (path + [x])[..|path|] == path;
  }

  // ---- One frame

  /** The three ways on: into a child, to the end of a word, or staying. */
  predicate Legal(cfg: Config, lexicon: seq<TrieNode>, h: Node, x: Node) {
    var children := Lookup(lexicon, h.lex).children;
    if x.word != -1 then
      && x.token in children && x.lex == 0 && !x.prevBlank
      && var labels := Lookup(lexicon, children[x.token]).labels;
         x.word in labels || (labels == [] && cfg.unkScore.Some? && x.word == cfg.unk)
    else if x.lex != h.lex then
      && x.token in children && x.lex == children[x.token] && !x.prevBlank
      && (cfg.criterion == CTC ==> h.prevBlank || x.token != h.token)
    else if x.prevBlank then cfg.criterion == CTC && x.token == cfg.blank
    else x.token == h.token && (cfg.criterion == CTC ==> !h.prevBlank)
  }

  ghost predicate AllLegal(cfg: Config, lexicon: seq<TrieNode>, h: Node, s: seq<Node>) {
    forall i :: 0 <= i < |s| ==> Legal(cfg, lexicon, h, s[i])
  }

  lemma ChildLegal(cfg: Config, lexicon: seq<TrieNode>, score: real, h: Node, j: int, n: int)
    requires n in Lookup(lexicon, h.lex).children && Lookup(lexicon, h.lex).children[n] != h.lex
    ensures AllLegal(cfg, lexicon, h, ProposeChild(cfg, lexicon, score, h, j, n, Lookup(lexicon, h.lex).children[n]))
  {
    hide Weighted, Smear, Lookup;
  }

  lemma WordsLegal(cfg: Config, lexicon: seq<TrieNode>, score: real, h: Node, j: int, n: int)
    requires n in Lookup(lexicon, h.lex).children && cfg.unk != -1
    requires -1 !in Lookup(lexicon, Lookup(lexicon, h.lex).children[n]).labels
    ensures var labels := Lookup(lexicon, Lookup(lexicon, h.lex).children[n]).labels;
      && AllLegal(cfg, lexicon, h, ProposeWords(cfg, lexicon, score, h, j, n, labels))
      && AllLegal(cfg, lexicon, h, ProposeUnknown(cfg, lexicon, score, h, j, n, labels))
  {
    hide Weighted, Smear, Lookup;
    var labels := Lookup(lexicon, Lookup(lexicon, h.lex).children[n]).labels;
    var words := ProposeWords(cfg, lexicon, score, h, j, n, labels);
    forall i | 0 <= i < |words| ensures Legal(cfg, lexicon, h, words[i]) {
      assert labels[i] in labels;
    }
  }

  lemma LexLegal(cfg: Config, lexicon: seq<TrieNode>, first: bool, row: seq<real>, h: Node, j: int, n: int)
    requires NoLoops(lexicon) && IsLexicon(cfg.unk, lexicon)
    ensures AllLegal(cfg, lexicon, h, ProposeLex(cfg, lexicon, first, row, h, j, n))
  {
    hide AcousticStep, Legal, ProposeChild, ProposeWords, ProposeUnknown;
    if n in Lookup(lexicon, h.lex).children {
      var score := h.score + AcousticStep(cfg, first, row, h.token, n);
      ChildLegal(cfg, lexicon, score, h, j, n);
      WordsLegal(cfg, lexicon, score, h, j, n);
    }
  }

  lemma {:induction false} TokensLegal(cfg: Config, lexicon: seq<TrieNode>, first: bool, row: seq<real>,
                                       tokens: seq<int>, h: Node, j: int)
    requires cfg.lexicon == Some(lexicon) && NoLoops(lexicon) && IsLexicon(cfg.unk, lexicon)
    ensures AllLegal(cfg, lexicon, h, ProposeTokens(cfg, first, row, tokens, h, j))
  {
    hide Legal, ProposeLex, NoLoops, IsLexicon;
    if tokens != [] {
      TokensLegal(cfg, lexicon, first, row, tokens[..|tokens| - 1], h, j);
      LexLegal(cfg, lexicon, first, row, h, j, tokens[|tokens| - 1]);
    }
  }

  lemma FromLegal(cfg: Config, lexicon: seq<TrieNode>, first: bool, row: seq<real>, tokens: seq<int>, h: Node, j: int,
                  x: Node)
    requires cfg.lexicon == Some(lexicon) && NoLoops(lexicon) && IsLexicon(cfg.unk, lexicon)
    requires x in ProposeFrom(cfg, first, row, tokens, h, j)
    ensures Legal(cfg, lexicon, h, x)
  {
    hide ProposeTokens, NoLoops, IsLexicon, AcousticStep;
    TokensLegal(cfg, lexicon, first, row, tokens, h, j);
    assert AllLegal(cfg, lexicon, h, ProposeStay(cfg, first, row, h, j));
  }

  /** Each hypothesis of a new beam extends its parent legally, with log-add or without. */
  lemma FrameLegal(cfg: Config, lexicon: seq<TrieNode>, first: bool, row: seq<real>, beam: seq<Node>, out: seq<Node>,
                   x: Node)
    requires cfg.lexicon == Some(lexicon) && NoLoops(lexicon) && IsLexicon(cfg.unk, lexicon)
    requires FrameStep(cfg, first, row, beam, out) && x in out
    ensures 0 <= x.parent < |beam| && Legal(cfg, lexicon, beam[x.parent], x)
  {
    hide ProposeAll, ProposeFrom, Stored, TokenChoice, NoLoops, IsLexicon, Lookup;
    var tokens :| TokenChoice(row, cfg.beamSizeToken, tokens)
      && Stored(cfg.merge, cfg.beamSize, cfg.threshold, ProposeAll(cfg, first, row, tokens, beam), false, out);
    var proposals := ProposeAll(cfg, first, row, tokens, beam);
    StoredFrom(cfg.merge, cfg.beamSize, cfg.threshold, proposals, false, out, x);
    var i :| 0 <= i < |proposals| && x == Rescored(proposals[i], x.score);
    ProposedBy(cfg, first, row, tokens, beam, proposals[i]);
    FromLegal(cfg, lexicon, first, row, tokens, beam[x.parent], x.parent, proposals[i]);
  }

  // ---- Whole chains

  /** The chain stands where its unfinished tokens lead, and each of its words is in the
      lexicon under the tokens eaten for it. */
  ghost predicate SpelledOut(cfg: Config, lexicon: seq<TrieNode>, path: seq<Node>) {
    && path != [] && HasPath(lexicon, Since(path)) && Walk(lexicon, Since(path)) == path[|path| - 1].lex
    && |Spellings(path)| == |Words(path)|
    && forall i :: 0 <= i < |Words(path)| ==> Spells(cfg, lexicon, Spellings(path)[i], Words(path)[i])
  }

  lemma SpelledNext(cfg: Config, lexicon: seq<TrieNode>, path: seq<Node>, x: Node)
    requires SpelledOut(cfg, lexicon, path) && Legal(cfg, lexicon, path[|path| - 1], x)
    ensures SpelledOut(cfg, lexicon, path + [x])
  {
    hide Walk, HasPath, Words, Spellings, Since, Eaten, Lookup;
    SinceSnoc(path, x);
    SpellingsSnoc(path, x);
    WordsSnoc(path, x);
    WalkSnoc(lexicon, Since(path), x.token);
    PathSnoc(lexicon, Since(path), x.token);
    if x.word != -1 { WalkRoot(lexicon); }
  }

  lemma WalkRoot(lexicon: seq<TrieNode>)
    ensures Walk(lexicon, []) == 0 && HasPath(lexicon, [])
  {
  }

  /** In every frame of every decoding, every hypothesis is spelled out by what it ate. */
  lemma {:induction false} HypothesesAreSpelled(cfg: Config, lexicon: seq<TrieNode>, rows: seq<seq<real>>, m: Machine,
                                                k: int, i: int)
    requires cfg.lexicon == Some(lexicon) && NoLoops(lexicon) && IsLexicon(cfg.unk, lexicon)
    requires Sound(m) && Steps(cfg, Begin(cfg), rows, m) && IsRef(m.beams, k, i)
    ensures SpelledOut(cfg, lexicon, Chain(m.beams, k, i))
    decreases k
  {
    hide SpelledOut, NoLoops, IsLexicon, FrameStep, Legal;
    var start := Begin(cfg);
    assert m.beams[0] == m.beams[..1][0] == start.beams[0];
    if k == 0 {
      StartSpelled(cfg, lexicon);
    } else {
      assert Linked(m.beams[k], |m.beams[k - 1]|);
      var x := m.beams[k][i];
      HypothesesAreSpelled(cfg, lexicon, rows, m, k - 1, x.parent);
      assert StepAt(cfg, start, rows, m.beams, k - 1);
      FrameLegal(cfg, lexicon, k == 1, rows[k - 1], m.beams[k - 1], m.beams[k], x);
      SpelledNext(cfg, lexicon, Chain(m.beams, k - 1, x.parent), x);
    }
  }

  lemma StartSpelled(cfg: Config, lexicon: seq<TrieNode>)
    ensures SpelledOut(cfg, lexicon, [Begin(cfg).beams[0][0]])
  {
  }

  // ---- What was eaten against what the frames say

  /** A CTC word ended on the token of the frame before with no blank in between. */
  predicate Doubles(cfg: Config, h: Node, x: Node) {
    cfg.criterion == CTC && x.word != -1 && x.token == h.token && !h.prevBlank
  }

  function CountDoubles(cfg: Config, path: seq<Node>): nat {
    if |path| <= 1 then 0
    else
      var n := |path| - 1;
      CountDoubles(cfg, path[..n]) + if Doubles(cfg, path[n - 1], path[n]) then 1 else 0
  }

  lemma DoublesSnoc(cfg: Config, path: seq<Node>, x: Node)
    requires path != []
    ensures CountDoubles(cfg, path + [x]) == CountDoubles(cfg, path) + if Doubles(cfg, path[|path| - 1], x) then 1
      else 0
  {
    assert (path + [x])[..|path|] == path;
  }

  /** CTC: nothing in the lexicon is spelled with the blank, and silence is not the blank. */
  ghost predicate BlankFree(sil: int, blank: int, lexicon: seq<TrieNode>) {
    sil != blank && forall i :: 0 <= i < |lexicon| ==> blank !in lexicon[i].children
  }

  /** The frames from the starting silence on. */
  function Frames(path: seq<Node>): seq<int> {
    seq(|path|, j requires 0 <= j < |path| => path[j].token)
  }

  /** What the frames collapse to is what was eaten, as long as no word doubled its end;
      each doubling makes the frames fall one token short. */
  ghost predicate Collapses(cfg: Config, path: seq<Node>) {
    && path != [] && path[0].token == cfg.sil
    && (path[|path| - 1].prevBlank <==> path[|path| - 1].token == cfg.blank)
    && |Collapse(Frames(path), cfg.blank)| + CountDoubles(cfg, path) == 1 + |Eaten(path)|
    && (CountDoubles(cfg, path) == 0 ==> Collapse(Frames(path), cfg.blank) == [cfg.sil] + Eaten(path))
  }

  lemma CollapsesNext(cfg: Config, lexicon: seq<TrieNode>, path: seq<Node>, x: Node)
    requires cfg.criterion == CTC && BlankFree(cfg.sil, cfg.blank, lexicon) && Collapses(cfg, path)
    requires Legal(cfg, lexicon, path[|path| - 1], x)
    ensures Collapses(cfg, path + [x])
  {
    hide Collapse, CountDoubles, Eaten, Frames;
    EatenSnoc(path, x);
    DoublesSnoc(cfg, path, x);
    FramesSnoc(path, x);
    CollapseSnoc(Frames(path), x.token, cfg.blank);
  }

  lemma FramesSnoc(path: seq<Node>, x: Node)
    requires path != []
    ensures Frames(path + [x]) == Frames(path) + [x.token]
    ensures Frames(path) != [] && Frames(path)[|Frames(path)| - 1] == path[|path| - 1].token
  {
  }

  lemma StartCollapses(cfg: Config)
    requires cfg.sil != cfg.blank
    ensures Collapses(cfg, [Begin(cfg).beams[0][0]])
  {
    var path := [Begin(cfg).beams[0][0]];
    assert Frames(path) == [] + [cfg.sil];
    CollapseNil(cfg.blank);
    CollapseSnoc([], cfg.sil, cfg.blank);
  }

  lemma {:induction false} ChainCollapses(cfg: Config, lexicon: seq<TrieNode>, rows: seq<seq<real>>, m: Machine,
                                          k: int, i: int)
    requires cfg.lexicon == Some(lexicon) && NoLoops(lexicon) && IsLexicon(cfg.unk, lexicon)
    requires cfg.criterion == CTC && BlankFree(cfg.sil, cfg.blank, lexicon)
    requires Sound(m) && Steps(cfg, Begin(cfg), rows, m) && IsRef(m.beams, k, i)
    ensures Collapses(cfg, Chain(m.beams, k, i))
    decreases k
  {
    hide Collapses, NoLoops, IsLexicon, FrameStep, Legal, BlankFree;
    var start := Begin(cfg);
    assert m.beams[0] == m.beams[..1][0] == start.beams[0];
    if k == 0 {
      BlankApart(cfg, lexicon);
      StartCollapses(cfg);
    } else {
      assert Linked(m.beams[k], |m.beams[k - 1]|);
      var x := m.beams[k][i];
      ChainCollapses(cfg, lexicon, rows, m, k - 1, x.parent);
      assert StepAt(cfg, start, rows, m.beams, k - 1);
      FrameLegal(cfg, lexicon, k == 1, rows[k - 1], m.beams[k - 1], m.beams[k], x);
      CollapsesNext(cfg, lexicon, Chain(m.beams, k - 1, x.parent), x);
    }
  }

  lemma BlankApart(cfg: Config, lexicon: seq<TrieNode>)
    requires BlankFree(cfg.sil, cfg.blank, lexicon)
    ensures cfg.sil != cfg.blank
  {
  }

  /** With CTC, the frames of a hypothesis collapse to the tokens of its words (and of the
      word begun) if and only if no word ended on a token repeated without a blank. */
  lemma FramesSpellWords(cfg: Config, lexicon: seq<TrieNode>, rows: seq<seq<real>>, m: Machine, k: int, i: int)
    requires cfg.lexicon == Some(lexicon) && NoLoops(lexicon) && IsLexicon(cfg.unk, lexicon)
    requires cfg.criterion == CTC && BlankFree(cfg.sil, cfg.blank, lexicon)
    requires Sound(m) && Steps(cfg, Begin(cfg), rows, m) && IsRef(m.beams, k, i)
    ensures var path := Chain(m.beams, k, i);
      Collapse(Frames(path), cfg.blank) == [cfg.sil] + Flatten(Spellings(path)) + Since(path) <==>
        CountDoubles(cfg, path) == 0
  {
    hide Collapse, CountDoubles, Eaten, Frames, Spellings, Since, Flatten, NoLoops, IsLexicon, BlankFree, StepAt, Chain;
    var path := Chain(m.beams, k, i);
    ChainCollapses(cfg, lexicon, rows, m, k, i);
    EatenSplits(path);
    assert [cfg.sil] + (Flatten(Spellings(path)) + Since(path)) == [cfg.sil] + Flatten(Spellings(path)) + Since(path);
  }

  // ---- The same for ASG, where runs merge

  ghost predicate Merges(cfg: Config, path: seq<Node>) {
    && path != [] && path[|path| - 1].token == ([cfg.sil] + Eaten(path))[|Eaten(path)|]
    && Uniq(Frames(path)) == Uniq([cfg.sil] + Eaten(path))
  }

  lemma MergesNext(cfg: Config, lexicon: seq<TrieNode>, path: seq<Node>, x: Node)
    requires cfg.criterion == ASG && Merges(cfg, path) && Legal(cfg, lexicon, path[|path| - 1], x)
    ensures Merges(cfg, path + [x])
  {
    hide Uniq, Eaten, Frames, Lookup;
    EatenSnoc(path, x);
    FramesSnoc(path, x);
    UniqSnoc(Frames(path), x.token);
    UniqSnoc([cfg.sil] + Eaten(path), x.token);
    assert [cfg.sil] + (Eaten(path) + [x.token]) == [cfg.sil] + Eaten(path) + [x.token];
  }

  /** With ASG, merging the runs of the frames of a hypothesis merges the runs of the
      tokens of its words. */
  lemma {:induction false} AsgFramesSpellWords(cfg: Config, lexicon: seq<TrieNode>, rows: seq<seq<real>>, m: Machine,
                                               k: int, i: int)
    requires cfg.lexicon == Some(lexicon) && NoLoops(lexicon) && IsLexicon(cfg.unk, lexicon) && cfg.criterion == ASG
    requires Sound(m) && Steps(cfg, Begin(cfg), rows, m) && IsRef(m.beams, k, i)
    ensures Merges(cfg, Chain(m.beams, k, i))
    decreases k
  {
    hide Merges, NoLoops, IsLexicon, FrameStep, Legal;
    var start := Begin(cfg);
    assert m.beams[0] == m.beams[..1][0] == start.beams[0];
    if k == 0 {
      StartMerges(cfg);
    } else {
      assert Linked(m.beams[k], |m.beams[k - 1]|);
      var x := m.beams[k][i];
      AsgFramesSpellWords(cfg, lexicon, rows, m, k - 1, x.parent);
      assert StepAt(cfg, start, rows, m.beams, k - 1);
      FrameLegal(cfg, lexicon, k == 1, rows[k - 1], m.beams[k - 1], m.beams[k], x);
      MergesNext(cfg, lexicon, Chain(m.beams, k - 1, x.parent), x);
    }
  }

  lemma StartMerges(cfg: Config)
    ensures Merges(cfg, [Begin(cfg).beams[0][0]])
  {
    var path := [Begin(cfg).beams[0][0]];
    assert Frames(path) == [cfg.sil] == [cfg.sil] + Eaten(path);
  }
}
