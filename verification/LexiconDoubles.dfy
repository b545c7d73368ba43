/** Which lexicons let the frames of every CTC hypothesis spell its words. */
module LexiconDoubles {
  import opened Transforms
  import opened Wrappers
  import opened Candidates
  import opened BeamStore
  import opened StoreBest
  import opened Decoder
  import opened History
  import opened Online
  import opened OnlineOffline
  import opened DecoderScore
  import opened LexiconSpelling

  // ---- The condition

  /** A word can end here: the node has words, or unknown words are allowed. */
  predicate CanEnd(lexicon: seq<TrieNode>, unkOn: bool, node: int) {
    Lookup(lexicon, node).labels != [] || unkOn
  }

  predicate EndsWord(lexicon: seq<TrieNode>, unkOn: bool, s: seq<int>) {
    s != [] && HasPath(lexicon, s) && CanEnd(lexicon, unkOn, Walk(lexicon, s))
  }

  /** One token, or the same token twice at the end. */
  predicate RepeatsEnd(s: seq<int>) {
    |s| == 1 || (|s| >= 2 && s[|s| - 1] == s[|s| - 2])
  }

  ghost predicate NoRepeatedEnd(lexicon: seq<TrieNode>, unkOn: bool) {
    forall s :: EndsWord(lexicon, unkOn, s) ==> !RepeatsEnd(s)
  }

  // ---- It is enough

  /** Off the blank, the last token eaten for the word begun is the token of the frame. */
  predicate Fresh(path: seq<Node>) {
    path != [] && var h := path[|path| - 1];
    !h.prevBlank && Since(path) != [] ==> Since(path)[|Since(path)| - 1] == h.token
  }

  lemma FreshNext(cfg: Config, lexicon: seq<TrieNode>, path: seq<Node>, x: Node)
    requires cfg.criterion == CTC && Fresh(path) && Legal(cfg, lexicon, path[|path| - 1], x)
    ensures Fresh(path + [x])
  {
    hide Since, Lookup;
    SinceSnoc(path, x);
  }

  lemma NoDouble(cfg: Config, lexicon: seq<TrieNode>, path: seq<Node>, x: Node)
    requires NoRepeatedEnd(lexicon, cfg.unkScore.Some?) && SpelledOut(cfg, lexicon, path) && Fresh(path)
    requires Legal(cfg, lexicon, path[|path| - 1], x)
    ensures !Doubles(cfg, path[|path| - 1], x)
  {
    hide Since, Lookup, Walk, HasPath;
    var s := Since(path) + [x.token];
    WalkSnoc(lexicon, Since(path), x.token);
    PathSnoc(lexicon, Since(path), x.token);
    if x.word != -1 {
      assert EndsWord(lexicon, cfg.unkScore.Some?, s);
      assert !RepeatsEnd(s);
    }
  }

  lemma {:induction false} NoDoubles(cfg: Config, lexicon: seq<TrieNode>, rows: seq<seq<real>>, m: Machine, k: int,
                                     i: int)
    requires cfg.lexicon == Some(lexicon) && NoLoops(lexicon) && IsLexicon(cfg.unk, lexicon) && cfg.criterion == CTC
    requires NoRepeatedEnd(lexicon, cfg.unkScore.Some?)
    requires Sound(m) && Steps(cfg, Begin(cfg), rows, m) && IsRef(m.beams, k, i)
    ensures Fresh(Chain(m.beams, k, i)) && CountDoubles(cfg, Chain(m.beams, k, i)) == 0
    decreases k
  {
    hide SpelledOut, NoLoops, IsLexicon, FrameStep, Legal, NoRepeatedEnd, CountDoubles, Since, Doubles;
    var start := Begin(cfg);
    assert m.beams[0] == m.beams[..1][0] == start.beams[0];
    if k == 0 {
      StartFresh(cfg, Chain(m.beams, k, i));
    } else {
      assert Linked(m.beams[k], |m.beams[k - 1]|);
      var x := m.beams[k][i];
      var path := Chain(m.beams, k - 1, x.parent);
      NoDoubles(cfg, lexicon, rows, m, k - 1, x.parent);
      HypothesesAreSpelled(cfg, lexicon, rows, m, k - 1, x.parent);
      assert StepAt(cfg, start, rows, m.beams, k - 1);
      FrameLegal(cfg, lexicon, k == 1, rows[k - 1], m.beams[k - 1], m.beams[k], x);
      FreshNext(cfg, lexicon, path, x);
      NoDouble(cfg, lexicon, path, x);
      DoublesSnoc(cfg, path, x);
    }
  }

  lemma StartFresh(cfg: Config, path: seq<Node>)
    requires |path| == 1
    ensures Fresh(path) && CountDoubles(cfg, path) == 0
  {
  }

  // ---- It is needed: decodings that double

  /** A decoder that keeps one hypothesis and scores emissions only. */
  function Probe(lexicon: seq<TrieNode>, sil: int, blank: int, unk: int, unkOn: bool, N: nat): Config {
    Config(1, N, 0.0, 0.0, 0.0, if unkOn then Some(0.0) else None, 0.0, TakeMax, CTC,
           LM(0, (s, w) => (0, 0.0), s => (0, 0.0)), sil, blank, unk, [], Some(lexicon), false)
  }

  /** A frame in favour of token n. */
  function Favour(N: nat, n: int): (row: seq<real>)
    ensures |row| == N
  {
    seq(N, i => if i == n then 1.0 else 0.0)
  }

  ghost predicate IsProbe(cfg: Config, lexicon: seq<TrieNode>, N: nat) {
    exists sil, blank, unk, unkOn :: cfg == Probe(lexicon, sil, blank, unk, unkOn, N)
  }

  /** Whatever is proposed scores its emission. */
  lemma ProbeScores(cfg: Config, lexicon: seq<TrieNode>, N: nat, first: bool, n: int, h: Node, x: Node)
    requires IsProbe(cfg, lexicon, N) && IsLexicon(cfg.unk, lexicon)
    requires x in ProposeFrom(cfg, first, Favour(N, n), seq(N, i => i), h, 0)
    ensures x.score == h.score + Emission(Favour(N, n), x.token)
  {
    hide ProposeFrom, IsLexicon, Smear, Emission, Favour;
    FromPaid(cfg, lexicon, first, Favour(N, n), seq(N, i => i), h, 0, x);
    forall l ensures Weighted(cfg, l) == 0.0 { }
  }

  /** The decoding so far and its one hypothesis. */
  ghost predicate Reached(cfg: Config, rows: seq<seq<real>>, m: Machine, h: Node) {
    Sound(m) && Steps(cfg, Begin(cfg), rows, m) && m.beams[|m.beams| - 1] == [h]
  }

  lemma {:induction false} AllFromOne(cfg: Config, first: bool, row: seq<real>, tokens: seq<int>, h: Node)
    ensures ProposeAll(cfg, first, row, tokens, [h]) == ProposeFrom(cfg, first, row, tokens, h, 0)
  {
    hide ProposeFrom;
    assert [h][..0] == [];
    assert ProposeAll(cfg, first, row, tokens, []) == [];
    assert [] + ProposeFrom(cfg, first, row, tokens, h, 0) == ProposeFrom(cfg, first, row, tokens, h, 0);
  }

  /** A frame in favour of the token of a proposal can keep just that proposal. */
  lemma ProbeFrame(cfg: Config, lexicon: seq<TrieNode>, N: nat, first: bool, h: Node, x: Node)
    requires IsProbe(cfg, lexicon, N) && IsLexicon(cfg.unk, lexicon) && 0 <= x.token < N
    requires x in ProposeFrom(cfg, first, Favour(N, x.token), seq(N, i => i), h, 0)
    ensures FrameStep(cfg, first, Favour(N, x.token), [h], [x])
  {
    hide ProposeFrom, IsLexicon, ProposeAll, Stored;
    var row, tokens := Favour(N, x.token), seq(N, i => i);
    AllFromOne(cfg, first, row, tokens, h);
    forall y | y in ProposeFrom(cfg, first, row, tokens, h, 0) ensures y.score <= x.score {
      ProbeScores(cfg, lexicon, N, first, x.token, h, y);
      ProbeScores(cfg, lexicon, N, first, x.token, h, x);
    }
    BestMayBeStored(0.0, ProposeFrom(cfg, first, row, tokens, h, 0), x);
    assert TokenChoice(row, cfg.beamSizeToken, tokens);
  }

  lemma Advance(cfg: Config, lexicon: seq<TrieNode>, N: nat, rows: seq<seq<real>>, m: Machine, h: Node, x: Node)
    returns (rows': seq<seq<real>>, m': Machine)
    requires IsProbe(cfg, lexicon, N) && IsLexicon(cfg.unk, lexicon) && 0 <= x.token < N && Reached(cfg, rows, m, h)
    requires x in ProposeFrom(cfg, rows == [], Favour(N, x.token), seq(N, i => i), h, 0)
    ensures Reached(cfg, rows', m', x) && |m'.beams| >= 2 && m'.beams[|m'.beams| - 2] == [h] && x.parent == 0
    ensures rows' != []
  {
    hide ProposeFrom, IsLexicon, FrameStep, IsProbe, Chained;
    var row := Favour(N, x.token);
    ProbeFrame(cfg, lexicon, N, rows == [], h, x);
    m' := Machine(m.beams + [[x]], m.decoded + 1, m.pruned);
    rows' := rows + [row];
    assert StepAt(cfg, m, [row], m'.beams, 0);
    assert Steps(cfg, m, [row], m');
    StepsCompose(cfg, Begin(cfg), rows, m, [row], m');
    StepsSound(cfg, Begin(cfg), rows', m') by { BeginSound(cfg); }
    FromParent(cfg, rows == [], row, seq(N, i => i), h, 0);
  }

  // ---- The proposals needed

  lemma {:induction false} TokenProposed(cfg: Config, first: bool, row: seq<real>, tokens: seq<int>, h: Node, j: int,
                                         k: int, x: Node)
    requires 0 <= k < |tokens| && x in ProposeToken(cfg, first, row, h, j, tokens[k])
    ensures x in ProposeTokens(cfg, first, row, tokens, h, j)
  {
    hide ProposeToken;
    if k < |tokens| - 1 { TokenProposed(cfg, first, row, tokens[..|tokens| - 1], h, j, k, x); }
  }

  lemma LexProposed(cfg: Config, lexicon: seq<TrieNode>, N: nat, first: bool, row: seq<real>, h: Node, n: int, x: Node)
    requires cfg.lexicon == Some(lexicon) && 0 <= n < N && x in ProposeLex(cfg, lexicon, first, row, h, 0, n)
    ensures x in ProposeFrom(cfg, first, row, seq(N, i => i), h, 0)
  {
    hide ProposeLex, ProposeTokens, ProposeStay;
    TokenProposed(cfg, first, row, seq(N, i => i), h, 0, n, x);
  }

  lemma BlankProposed(cfg: Config, lexicon: seq<TrieNode>, N: nat, first: bool, row: seq<real>, h: Node)
    returns (x: Node)
    requires cfg.lexicon == Some(lexicon) && cfg.criterion == CTC
    ensures x in ProposeFrom(cfg, first, row, seq(N, i => i), h, 0)
    ensures x.token == cfg.blank && x.lex == h.lex && x.prevBlank
  {
    hide ProposeTokens, AcousticStep;
    x := Node(h.lm, h.lex, 0, h.score + Emission(row, cfg.blank), cfg.blank, -1, true);
    assert x in ProposeStay(cfg, first, row, h, 0);
  }

  lemma ChildProposed(cfg: Config, lexicon: seq<TrieNode>, N: nat, first: bool, row: seq<real>, h: Node, n: int)
    returns (x: Node)
    requires cfg.lexicon == Some(lexicon) && cfg.criterion == CTC && 0 <= n < N && h.prevBlank
    requires n in Lookup(lexicon, h.lex).children
    requires Lookup(lexicon, Lookup(lexicon, h.lex).children[n]).children != map[]
    ensures x in ProposeFrom(cfg, first, row, seq(N, i => i), h, 0)
    ensures x.token == n && x.lex == Lookup(lexicon, h.lex).children[n] && !x.prevBlank
  {
    hide AcousticStep, Weighted, Smear, Lookup, ProposeFrom;
    var child := Lookup(lexicon, h.lex).children[n];
    var score := h.score + AcousticStep(cfg, first, row, h.token, n);
    x := ProposeChild(cfg, lexicon, score, h, 0, n, child)[0];
    assert x in ProposeLex(cfg, lexicon, first, row, h, 0, n);
    LexProposed(cfg, lexicon, N, first, row, h, n, x);
  }

  lemma WordProposed(cfg: Config, lexicon: seq<TrieNode>, N: nat, first: bool, row: seq<real>, h: Node, n: int)
    returns (x: Node)
    requires cfg.lexicon == Some(lexicon) && IsLexicon(cfg.unk, lexicon) && 0 <= n < N
    requires n in Lookup(lexicon, h.lex).children
    requires CanEnd(lexicon, cfg.unkScore.Some?, Lookup(lexicon, h.lex).children[n])
    ensures x in ProposeFrom(cfg, first, row, seq(N, i => i), h, 0)
    ensures x.token == n && x.lex == 0 && x.word != -1 && !x.prevBlank
  {
    hide AcousticStep, Weighted, Smear, ProposeFrom;
    var child := Lookup(lexicon, h.lex).children[n];
    var labels := Lookup(lexicon, child).labels;
    var score := h.score + AcousticStep(cfg, first, row, h.token, n);
    if labels != [] {
      x := ProposeWord(cfg, lexicon, score, h, 0, n, labels[0], cfg.wordScore);
      assert labels[0] in labels;
      assert ProposeWords(cfg, lexicon, score, h, 0, n, labels)[0] == x;
    } else {
      x := ProposeWord(cfg, lexicon, score, h, 0, n, cfg.unk, cfg.unkScore.value);
      assert ProposeUnknown(cfg, lexicon, score, h, 0, n, labels)[0] == x;
    }
    LexProposed(cfg, lexicon, N, first, row, h, n, x);
  }

  // ---- A decoding that walks down the trie, with a blank after every token

  /** Tokens that frames of N emissions can favour. */
  predicate TokensBelow(s: seq<int>, N: nat) {
    forall i :: 0 <= i < |s| ==> 0 <= s[i] < N
  }

  lemma {:induction false} PrefixPath(lexicon: seq<TrieNode>, s: seq<int>, q: nat)
    requires HasPath(lexicon, s) && q < |s|
    ensures HasPath(lexicon, s[..q]) && s[q] in Lookup(lexicon, Walk(lexicon, s[..q])).children
    ensures Walk(lexicon, s[..q + 1]) == Lookup(lexicon, Walk(lexicon, s[..q])).children[s[q]]
    decreases |s|
  {
    var n := |s| - 1;
    if q < n {
      PrefixPath(lexicon, s[..n], q);
      assert s[..n][..q] == s[..q] && s[..n][..q + 1] == s[..q + 1];
    } else {
      assert s[..q + 1] == s;
    }
  }

  /** On the blank, at the node the first q tokens lead to. */
  lemma {:induction false} WalkReached(cfg: Config, lexicon: seq<TrieNode>, N: nat, s: seq<int>, q: nat)
    returns (rows: seq<seq<real>>, m: Machine, h: Node)
    requires IsProbe(cfg, lexicon, N) && IsLexicon(cfg.unk, lexicon) && 0 <= cfg.blank < N && TokensBelow(s, N)
    requires HasPath(lexicon, s) && q < |s|
    ensures Reached(cfg, rows, m, h) && h.lex == Walk(lexicon, s[..q]) && h.prevBlank
  {
    hide ProposeFrom, IsLexicon, HasPath, Walk, Reached, Lookup;
    if q == 0 {
      rows, m, h := [], Begin(cfg), Begin(cfg).beams[0][0];
      BeginReached(cfg, h);
      assert s[..0] == [];
      WalkRoot(lexicon);
    } else {
      rows, m, h := WalkReached(cfg, lexicon, N, s, q - 1);
      rows, m, h := EatReached(cfg, lexicon, N, s, q - 1, rows, m, h);
    }
    var x := BlankProposed(cfg, lexicon, N, rows == [], Favour(N, cfg.blank), h);
    rows, m := Advance(cfg, lexicon, N, rows, m, h, x);
    h := x;
  }

  lemma BeginReached(cfg: Config, h: Node)
    requires h == Begin(cfg).beams[0][0]
    ensures Reached(cfg, [], Begin(cfg), h)
  {
    hide FrameStep;
    BeginSound(cfg);
    var m := Begin(cfg);
    assert m.beams[..|m.beams|] == m.beams;
  }

  /** Eat token q of the path. */
  lemma EatReached(cfg: Config, lexicon: seq<TrieNode>, N: nat, s: seq<int>, q: nat, rows: seq<seq<real>>, m: Machine,
                   h: Node)
    returns (rows': seq<seq<real>>, m': Machine, x: Node)
    requires IsProbe(cfg, lexicon, N) && IsLexicon(cfg.unk, lexicon) && TokensBelow(s, N) && HasPath(lexicon, s)
    requires q + 1 < |s|
    requires Reached(cfg, rows, m, h) && h.lex == Walk(lexicon, s[..q]) && h.prevBlank
    ensures Reached(cfg, rows', m', x) && x.lex == Walk(lexicon, s[..q + 1]) && x.token == s[q] && !x.prevBlank
  {
    hide ProposeFrom, IsLexicon, HasPath, Walk, Reached, Lookup;
    PrefixPath(lexicon, s, q);
    PrefixPath(lexicon, s, q + 1);
    x := ChildProposed(cfg, lexicon, N, rows == [], Favour(N, s[q]), h, s[q]);
    rows', m' := Advance(cfg, lexicon, N, rows, m, h, x);
  }

  /** End a word on a token. */
  lemma EndReached(cfg: Config, lexicon: seq<TrieNode>, N: nat, n: int, rows: seq<seq<real>>, m: Machine, h: Node)
    returns (rows': seq<seq<real>>, m': Machine, x: Node)
    requires IsProbe(cfg, lexicon, N) && IsLexicon(cfg.unk, lexicon) && 0 <= n < N && Reached(cfg, rows, m, h)
    requires n in Lookup(lexicon, h.lex).children
    requires CanEnd(lexicon, cfg.unkScore.Some?, Lookup(lexicon, h.lex).children[n])
    ensures Reached(cfg, rows', m', x) && x.lex == 0 && x.token == n && !x.prevBlank
    ensures |m'.beams| >= 2 && m'.beams[|m'.beams| - 2] == [h] && x.parent == 0
    ensures h.token == n && !h.prevBlank ==> Doubles(cfg, h, x)
  {
    hide ProposeFrom, IsLexicon, Reached, Lookup;
    x := WordProposed(cfg, lexicon, N, rows == [], Favour(N, n), h, n);
    rows', m' := Advance(cfg, lexicon, N, rows, m, h, x);
  }

  lemma LastDoubles(cfg: Config, rows: seq<seq<real>>, m: Machine, h: Node, x: Node)
    requires Reached(cfg, rows, m, x) && |m.beams| >= 2 && m.beams[|m.beams| - 2] == [h] && x.parent == 0
    requires Doubles(cfg, h, x)
    ensures IsRef(m.beams, |m.beams| - 1, 0) && CountDoubles(cfg, Chain(m.beams, |m.beams| - 1, 0)) > 0
  {
    hide Steps, CountDoubles, Doubles;
    var k := |m.beams| - 1;
    assert Linked(m.beams[k], |m.beams[k - 1]|);
    DoublesSnoc(cfg, Chain(m.beams, k - 1, 0), x);
  }

  /** Every word with a repeated end is doubled in some decoding. */
  lemma DoubleReached(cfg: Config, lexicon: seq<TrieNode>, N: nat, s: seq<int>)
    returns (rows: seq<seq<real>>, m: Machine)
    requires IsProbe(cfg, lexicon, N) && IsLexicon(cfg.unk, lexicon) && 0 <= cfg.blank < N && TokensBelow(s, N)
    requires EndsWord(lexicon, cfg.unkScore.Some?, s) && RepeatsEnd(s)
    ensures Sound(m) && Steps(cfg, Begin(cfg), rows, m) && IsRef(m.beams, |m.beams| - 1, 0)
    ensures CountDoubles(cfg, Chain(m.beams, |m.beams| - 1, 0)) > 0
  {
    hide IsProbe, IsLexicon, HasPath, Walk, Steps, Lookup, CanEnd, Chain, Chained, CountDoubles, Doubles;
    var n := |s| - 1;
    var h, x;
    PrefixPath(lexicon, s, n);
    assert s[..n + 1] == s;
    if n == 0 {
      rows, m, h := WalkReached(cfg, lexicon, N, s, 0);
      rows, m, h := EndReached(cfg, lexicon, N, s[0], rows, m, h);
      assert s[..0] == [];
      WalkRoot(lexicon);
    } else {
      rows, m, h := WalkReached(cfg, lexicon, N, s, n - 1);
      rows, m, h := EatReached(cfg, lexicon, N, s, n - 1, rows, m, h);
    }
    rows, m, x := EndReached(cfg, lexicon, N, s[n], rows, m, h);
    LastDoubles(cfg, rows, m, h, x);
  }

  // ---- Exactly these lexicons

  /** A CTC decoder over this lexicon, whatever its sizes, scores and language model. */
  predicate Fits(cfg: Config, lexicon: seq<TrieNode>, sil: int, blank: int, unk: int, unkOn: bool) {
    && cfg.lexicon == Some(lexicon) && cfg.criterion == CTC && cfg.sil == sil && cfg.blank == blank && cfg.unk == unk
    && cfg.unkScore.Some? == unkOn
  }

  ghost predicate Decoded(cfg: Config, rows: seq<seq<real>>, m: Machine, k: int, i: int) {
    Sound(m) && Steps(cfg, Begin(cfg), rows, m) && IsRef(m.beams, k, i)
  }

  /** The frames collapse to the words spelled and the word begun. */
  ghost predicate FramesSpell(cfg: Config, m: Machine, k: int, i: int)
    requires Chained(m.beams) && IsRef(m.beams, k, i)
  {
    var path := Chain(m.beams, k, i);
    Collapse(Frames(path), cfg.blank) == [cfg.sil] + Flatten(Spellings(path)) + Since(path)
  }

  ghost predicate AlwaysSpell(lexicon: seq<TrieNode>, sil: int, blank: int, unk: int, unkOn: bool) {
    forall cfg, rows, m, k, i :: Fits(cfg, lexicon, sil, blank, unk, unkOn) && Decoded(cfg, rows, m, k, i) ==>
      FramesSpell(cfg, m, k, i)
  }

  /** Edges carry token indices. */
  ghost predicate TokenEdges(lexicon: seq<TrieNode>) {
    forall i, n :: 0 <= i < |lexicon| && n in lexicon[i].children ==> n >= 0
  }

  lemma {:induction false} PathTokens(lexicon: seq<TrieNode>, s: seq<int>) returns (N: nat)
    requires TokenEdges(lexicon) && HasPath(lexicon, s)
    ensures TokensBelow(s, N)
  {
    N := 0;
    if s != [] {
      var n := |s| - 1;
      N := PathTokens(lexicon, s[..n]);
      N := if s[n] >= N then s[n] + 1 else N;
    }
  }

  /** For a given lexicon, the frames of every hypothesis of every CTC decoding spell its
      words if and only if no word of it is one token or ends in the same token twice. */
  lemma LexiconDecides(lexicon: seq<TrieNode>, sil: int, blank: int, unk: int, unkOn: bool)
    requires NoLoops(lexicon) && IsLexicon(unk, lexicon) && TokenEdges(lexicon) && BlankFree(sil, blank, lexicon)
    requires blank >= 0
    ensures AlwaysSpell(lexicon, sil, blank, unk, unkOn) <==> NoRepeatedEnd(lexicon, unkOn)
  {
    hide NoLoops, IsLexicon, BlankFree, FramesSpell, EndsWord, RepeatsEnd, Steps, Chained;
    if NoRepeatedEnd(lexicon, unkOn) {
      forall cfg, rows, m, k, i | Fits(cfg, lexicon, sil, blank, unk, unkOn) && Decoded(cfg, rows, m, k, i)
        ensures FramesSpell(cfg, m, k, i)
      {
        Spelling(cfg, lexicon, rows, m, k, i);
        NoDoublesDecoded(cfg, lexicon, rows, m, k, i);
      }
    } else {
      var s :| EndsWord(lexicon, unkOn, s) && RepeatsEnd(s);
      var cfg, rows, m, k := Counterexample(lexicon, sil, blank, unk, unkOn, s);
      Spelling(cfg, lexicon, rows, m, k, 0);
    }
  }

  lemma Spelling(cfg: Config, lexicon: seq<TrieNode>, rows: seq<seq<real>>, m: Machine, k: int, i: int)
    requires cfg.lexicon == Some(lexicon) && cfg.criterion == CTC && NoLoops(lexicon) && IsLexicon(cfg.unk, lexicon)
    requires BlankFree(cfg.sil, cfg.blank, lexicon) && Decoded(cfg, rows, m, k, i)
    ensures FramesSpell(cfg, m, k, i) <==> CountDoubles(cfg, Chain(m.beams, k, i)) == 0
  {
    hide NoLoops, IsLexicon, BlankFree, Steps, CountDoubles, Collapse, Chain, Chained, Flatten, Spellings, Since,
         Frames;
    FramesSpellWords(cfg, lexicon, rows, m, k, i);
  }

  lemma NoDoublesDecoded(cfg: Config, lexicon: seq<TrieNode>, rows: seq<seq<real>>, m: Machine, k: int, i: int)
    requires cfg.lexicon == Some(lexicon) && cfg.criterion == CTC && NoLoops(lexicon) && IsLexicon(cfg.unk, lexicon)
    requires NoRepeatedEnd(lexicon, cfg.unkScore.Some?) && Decoded(cfg, rows, m, k, i)
    ensures CountDoubles(cfg, Chain(m.beams, k, i)) == 0
  {
    hide NoLoops, IsLexicon, Steps, CountDoubles, Chain, Chained, NoRepeatedEnd, Fresh;
    NoDoubles(cfg, lexicon, rows, m, k, i);
  }

  /** A decoder, frames and a decoding in which a word with a repeated end doubles. */
  lemma Counterexample(lexicon: seq<TrieNode>, sil: int, blank: int, unk: int, unkOn: bool, s: seq<int>)
    returns (cfg: Config, rows: seq<seq<real>>, m: Machine, k: int)
    requires IsLexicon(unk, lexicon) && TokenEdges(lexicon) && blank >= 0 && EndsWord(lexicon, unkOn, s)
    requires RepeatsEnd(s)
    ensures Fits(cfg, lexicon, sil, blank, unk, unkOn) && Decoded(cfg, rows, m, k, 0)
    ensures CountDoubles(cfg, Chain(m.beams, k, 0)) > 0
  {
    hide IsLexicon, Steps, CountDoubles, Chain, HasPath, Walk, CanEnd, Chained, RepeatsEnd;
    var N := PathTokens(lexicon, s);
    N := if N > blank then N else blank + 1;
    cfg := Probe(lexicon, sil, blank, unk, unkOn, N);
    assert IsProbe(cfg, lexicon, N);
    rows, m := DoubleReached(cfg, lexicon, N, s);
    k := |m.beams| - 1;
  }

  /** The smallest such lexicon: one word of one token. */
  lemma OneTokenWord()
    ensures var lexicon := [TrieNode(map[1 := 1], [], 0.0), TrieNode(map[], [7], 0.0)];
      !AlwaysSpell(lexicon, 0, 2, 9, false)
  {
    hide AlwaysSpell;
    var lexicon := [TrieNode(map[1 := 1], [], 0.0), TrieNode(map[], [7], 0.0)];
    assert [1][..0] == [];
    assert Walk(lexicon, []) == 0 && HasPath(lexicon, []);
    assert EndsWord(lexicon, false, [1]) && RepeatsEnd([1]);
    LexiconDecides(lexicon, 0, 2, 9, false);
  }
}
