/** Where the decoder with a lexicon cuts a hypothesis, no word is cut. */
module WholeWords {
  import opened Wrappers
  import opened Candidates
  import opened Decoder
  import opened History
  import opened Online
  import opened DecoderScore
  import opened LexiconSpelling

  /** Words, the unknown one included, are indices. */
  ghost predicate WordIndices(unk: int, lexicon: seq<TrieNode>) {
    unk >= 0 && forall i, w :: 0 <= i < |lexicon| && w in lexicon[i].labels ==> w >= 0
  }

  /** The last frame of the chain ended a word. */
  predicate EndsWord(path: seq<Node>) {
    path != [] && Words(path) != Words(path[..|path| - 1])
  }

  lemma EndsWordMeans(path: seq<Node>)
    requires path != []
    ensures EndsWord(path) <==> path[|path| - 1].word != -1
    ensures EndsWord(path) && |path| > 1 ==> Since(path) == []
  {
    var n := |path| - 1;
    assert path == path[..n] + [path[n]];
    WordsSnoc(path[..n], path[n]);
  }

  /** Every hypothesis has a word that is an index, or none. */
  lemma HypothesisWord(cfg: Config, lexicon: seq<TrieNode>, rows: seq<seq<real>>, m: Machine, k: int, i: int)
    requires cfg.lexicon == Some(lexicon) && NoLoops(lexicon) && IsLexicon(cfg.unk, lexicon)
    requires WordIndices(cfg.unk, lexicon) && Sound(m) && Steps(cfg, Begin(cfg), rows, m) && IsRef(m.beams, k, i)
    ensures m.beams[k][i].word >= 0 <==> m.beams[k][i].word != -1
    ensures k == 0 ==> m.beams[k][i].word == -1
  {
    hide NoLoops, IsLexicon, FrameStep;
    assert m.beams[0] == m.beams[..1][0] == Begin(cfg).beams[0];
    if k > 0 {
      var x := m.beams[k][i];
      assert StepAt(cfg, Begin(cfg), rows, m.beams, k - 1);
      FrameLegal(cfg, lexicon, k == 1, rows[k - 1], m.beams[k - 1], m.beams[k], x);
    }
  }

  /** The chain up to the parent of the ancestor n frames back of hypothesis b. */
  ghost function Before(beams: seq<seq<Node>>, b: int, n: nat): (path: seq<Node>)
    requires Chained(beams) && IsRef(beams, |beams| - 1, b) && n < |beams| - 1
    ensures |path| == |beams| - 1 - n
  {
    var k := |beams| - 1;
    assert Linked(beams[k - n], |beams[k - n - 1]|);
    Chain(beams, k - n - 1, beams[k - n][Ancestor(beams, k, b, k - n)].parent)
  }

  /** An ancestor counts as complete exactly when nothing or a whole word comes before it. */
  lemma CompleteExactly(cfg: Config, lexicon: seq<TrieNode>, rows: seq<seq<real>>, m: Machine, b: int, n: nat)
    requires cfg.lexicon == Some(lexicon) && NoLoops(lexicon) && IsLexicon(cfg.unk, lexicon)
    requires WordIndices(cfg.unk, lexicon) && Sound(m) && Steps(cfg, Begin(cfg), rows, m)
    requires IsRef(m.beams, |m.beams| - 1, b) && n < |m.beams|
    ensures CompleteAt(cfg, m.beams, b, n) <==> n == |m.beams| - 1 || EndsWord(Before(m.beams, b, n))
  {
    hide NoLoops, IsLexicon, StepAt, WordIndices, EndsWord;
    var k := |m.beams| - 1;
    if n < k {
      var a := Ancestor(m.beams, k, b, k - n);
      assert Linked(m.beams[k - n], |m.beams[k - n - 1]|);
      var p := m.beams[k - n][a].parent;
      HypothesisWord(cfg, lexicon, rows, m, k - n - 1, p);
      EndsWordMeans(Chain(m.beams, k - n - 1, p));
    }
  }

  /** The tokens eaten along the chain are those of its words, each whole and in the lexicon. */
  ghost predicate AllWhole(cfg: Config, lexicon: seq<TrieNode>, path: seq<Node>) {
    && Eaten(path) == Flatten(Spellings(path)) && |Spellings(path)| == |Words(path)|
    && forall i :: 0 <= i < |Words(path)| ==> Spells(cfg, lexicon, Spellings(path)[i], Words(path)[i])
  }

  lemma WholeAfterWord(cfg: Config, lexicon: seq<TrieNode>, path: seq<Node>)
    requires SpelledOut(cfg, lexicon, path) && (EndsWord(path) ==> |path| > 1)
    ensures EndsWord(path) ==> AllWhole(cfg, lexicon, path)
  {
    hide Spells, Walk, HasPath, EndsWord;
    EndsWordMeans(path);
    EatenSplits(path);
  }

  /** Going back n frames cuts no word: before the node found there are whole words only,
      or nothing. */
  ghost predicate CutsNone(cfg: Config, lexicon: seq<TrieNode>, beams: seq<seq<Node>>, b: int, n: nat)
    requires Chained(beams) && IsRef(beams, |beams| - 1, b) && n < |beams|
  {
    n == |beams| - 1 || (EndsWord(Before(beams, b, n)) && AllWhole(cfg, lexicon, Before(beams, b, n)))
  }

  /** The node the search returns cuts no word, unless the limit stopped it; and going back
      less far would have cut one. */
  lemma LookBackIsWhole(cfg: Config, lexicon: seq<TrieNode>, rows: seq<seq<real>>, m: Machine, b: int, lookBack: int,
                        n: nat)
    requires cfg.lexicon == Some(lexicon) && NoLoops(lexicon) && IsLexicon(cfg.unk, lexicon)
    requires WordIndices(cfg.unk, lexicon) && Sound(m) && Steps(cfg, Begin(cfg), rows, m)
    requires IsRef(m.beams, |m.beams| - 1, b) && lookBack < |m.beams| && n == LookBack(cfg, m.beams, b, lookBack)
    ensures AtLeastZero(lookBack) <= n < |m.beams|
    ensures n != lookBack + LOOK_BACK_LIMIT ==> CutsNone(cfg, lexicon, m.beams, b, n)
    ensures forall j: nat :: AtLeastZero(lookBack) <= j < n ==> !CutsNone(cfg, lexicon, m.beams, b, j)
  {
    hide NoLoops, IsLexicon, StepAt, WordIndices, CutsNone, Chained, CompleteAt;
    ClimbMeaning(cfg, m.beams, b, lookBack + LOOK_BACK_LIMIT, AtLeastZero(lookBack));
    if n != lookBack + LOOK_BACK_LIMIT { CompleteCuts(cfg, lexicon, rows, m, b, n); }
    forall j: nat | AtLeastZero(lookBack) <= j < n ensures !CutsNone(cfg, lexicon, m.beams, b, j) {
      assert !CompleteAt(cfg, m.beams, b, j);
      CompleteCuts(cfg, lexicon, rows, m, b, j);
    }
  }

  lemma CompleteCuts(cfg: Config, lexicon: seq<TrieNode>, rows: seq<seq<real>>, m: Machine, b: int, n: nat)
    requires cfg.lexicon == Some(lexicon) && NoLoops(lexicon) && IsLexicon(cfg.unk, lexicon)
    requires WordIndices(cfg.unk, lexicon) && Sound(m) && Steps(cfg, Begin(cfg), rows, m)
    requires IsRef(m.beams, |m.beams| - 1, b) && n < |m.beams|
    ensures CompleteAt(cfg, m.beams, b, n) <==> CutsNone(cfg, lexicon, m.beams, b, n)
  {
    hide NoLoops, IsLexicon, StepAt, WordIndices, EndsWord, AllWhole, Chained, Before, CompleteAt;
    CompleteExactly(cfg, lexicon, rows, m, b, n);
    if n < |m.beams| - 1 && EndsWord(Before(m.beams, b, n)) { BeforeIsWhole(cfg, lexicon, rows, m, b, n); }
  }

  lemma BeforeIsWhole(cfg: Config, lexicon: seq<TrieNode>, rows: seq<seq<real>>, m: Machine, b: int, n: nat)
    requires cfg.lexicon == Some(lexicon) && NoLoops(lexicon) && IsLexicon(cfg.unk, lexicon)
    requires WordIndices(cfg.unk, lexicon) && Sound(m) && Steps(cfg, Begin(cfg), rows, m)
    requires IsRef(m.beams, |m.beams| - 1, b) && n < |m.beams| - 1 && EndsWord(Before(m.beams, b, n))
    ensures AllWhole(cfg, lexicon, Before(m.beams, b, n))
  {
    hide NoLoops, IsLexicon, StepAt, WordIndices, EndsWord, AllWhole, SpelledOut;
    var k := |m.beams| - 1;
    assert Linked(m.beams[k - n], |m.beams[k - n - 1]|);
    var p := m.beams[k - n][Ancestor(m.beams, k, b, k - n)].parent;
    HypothesesAreSpelled(cfg, lexicon, rows, m, k - n - 1, p);
    HypothesisWord(cfg, lexicon, rows, m, k - n - 1, p);
    EndsWordMeans(Before(m.beams, b, n));
    WholeAfterWord(cfg, lexicon, Before(m.beams, b, n));
  }
}
