/** What one frame of decoding keeps: parents point into the frame before, and a
    common offset on the scores of a beam carries over to the next beam. */
module Beams {
  import opened Candidates
  import opened BeamStore
  import opened Decoder

  lemma StoredLinked(merge: Merge, K: nat, threshold: real, proposals: seq<Node>, sorted: bool, out: seq<Node>, n: nat)
    requires Stored(merge, K, threshold, proposals, sorted, out) && Linked(proposals, n)
    ensures Linked(out, n)
  {
    hide Stored;
    forall i | 0 <= i < |out| ensures 0 <= out[i].parent < n {
      StoredFrom(merge, K, threshold, proposals, sorted, out, out[i]);
    }
  }

  lemma FrameLinked(cfg: Config, first: bool, row: seq<real>, beam: seq<Node>, out: seq<Node>)
    requires FrameStep(cfg, first, row, beam, out)
    ensures Linked(out, |beam|)
  {
    hide TokenChoice, ProposeAll, Stored, Linked;
    var tokens :| TokenChoice(row, cfg.beamSizeToken, tokens)
      && Stored(cfg.merge, cfg.beamSize, cfg.threshold, ProposeAll(cfg, first, row, tokens, beam), false, out);
    ProposalsLinked(cfg, first, row, tokens, beam);
    StoredLinked(cfg.merge, cfg.beamSize, cfg.threshold, ProposeAll(cfg, first, row, tokens, beam), false, out, |beam|);
  }

  lemma FinalLinked(cfg: Config, beam: seq<Node>, out: seq<Node>)
    requires FinalStep(cfg, beam, out)
    ensures Linked(out, |beam|)
  {
    hide ProposeFinals, Stored, Linked;
    var nice := NiceEnding(cfg, beam);
    FinalsLinked(cfg, nice, beam);
    StoredLinked(cfg.merge, cfg.beamSize, cfg.threshold, ProposeFinals(cfg, nice, beam), true, out, |beam|);
  }

  // ---- A common offset

  /** b is a with c added to every score, and whatever parents. */
  predicate Alike(a: seq<Node>, b: seq<Node>, c: real) {
    |a| == |b| && forall i :: 0 <= i < |a| ==> b[i] == Moved(a[i], c, b[i].parent)
  }

  function Moved(h: Node, c: real, parent: int): Node {
    h.(parent := parent, score := h.score + c)
  }

  lemma ShiftConcat(a: seq<Node>, b: seq<Node>, c: real)
    ensures Shift(a + b, c) == Shift(a, c) + Shift(b, c)
  {
  }

  /** x with c added to its score. */
  function Raised(x: Node, c: real): Node {
    x.(score := x.score + c)
  }

  lemma ShiftOne(x: Node, c: real)
    ensures Shift([x], c) == [Raised(x, c)]
  {
  }

  lemma FreeShift(cfg: Config, first: bool, row: seq<real>, h: Node, j: int, n: int, c: real, p: int)
    ensures ProposeFree(cfg, first, row, Moved(h, c, p), j, n) == Raised(ProposeFree(cfg, first, row, h, j, n), c)
  {
    hide AcousticStep, Weighted;
  }

  lemma ChildShift(cfg: Config, lexicon: seq<TrieNode>, score: real, h: Node, j: int, n: int, child: int, c: real,
                   p: int)
    ensures ProposeChild(cfg, lexicon, score + c, Moved(h, c, p), j, n, child)
         == Shift(ProposeChild(cfg, lexicon, score, h, j, n, child), c)
  {
    hide Lookup, Smear, Weighted;
    var x := ProposeChild(cfg, lexicon, score, h, j, n, child);
    if x != [] { ShiftOne(x[0], c); }
  }

  lemma WordShift(cfg: Config, lexicon: seq<TrieNode>, score: real, h: Node, j: int, n: int, word: int, bonus: real,
                  c: real, p: int)
    ensures ProposeWord(cfg, lexicon, score + c, Moved(h, c, p), j, n, word, bonus)
         == Raised(ProposeWord(cfg, lexicon, score, h, j, n, word, bonus), c)
  {
    hide Lookup, Smear, Weighted;
  }

  lemma WordsShift(cfg: Config, lexicon: seq<TrieNode>, score: real, h: Node, j: int, n: int, labels: seq<int>,
                   c: real, p: int)
    ensures ProposeWords(cfg, lexicon, score + c, Moved(h, c, p), j, n, labels)
         == Shift(ProposeWords(cfg, lexicon, score, h, j, n, labels), c)
  {
    hide ProposeWord, Moved;
    var a := ProposeWords(cfg, lexicon, score + c, Moved(h, c, p), j, n, labels);
    var b := Shift(ProposeWords(cfg, lexicon, score, h, j, n, labels), c);
    forall i | 0 <= i < |labels| ensures a[i] == b[i] {
      WordShift(cfg, lexicon, score, h, j, n, labels[i], cfg.wordScore, c, p);
    }
  }

  lemma UnknownShift(cfg: Config, lexicon: seq<TrieNode>, score: real, h: Node, j: int, n: int, labels: seq<int>,
                     c: real, p: int)
    ensures ProposeUnknown(cfg, lexicon, score + c, Moved(h, c, p), j, n, labels)
         == Shift(ProposeUnknown(cfg, lexicon, score, h, j, n, labels), c)
  {
    hide ProposeWord, Moved;
    if cfg.unkScore.Some? { WordShift(cfg, lexicon, score, h, j, n, cfg.unk, cfg.unkScore.value, c, p); }
  }

  lemma LexShift(cfg: Config, lexicon: seq<TrieNode>, first: bool, row: seq<real>, h: Node, j: int, n: int, c: real,
                 p: int)
    ensures ProposeLex(cfg, lexicon, first, row, Moved(h, c, p), j, n)
      == Shift(ProposeLex(cfg, lexicon, first, row, h, j, n), c)
  {
    hide Lookup, AcousticStep, ProposeChild, ProposeWords, ProposeUnknown;
    if n in Lookup(lexicon, h.lex).children {
      var child := Lookup(lexicon, h.lex).children[n];
      var labels := Lookup(lexicon, child).labels;
      var a := AcousticStep(cfg, first, row, h.token, n);
      var score := h.score + a;
      assert Moved(h, c, p).score + a == score + c;
      ChildShift(cfg, lexicon, score, h, j, n, child, c, p);
      WordsShift(cfg, lexicon, score, h, j, n, labels, c, p);
      UnknownShift(cfg, lexicon, score, h, j, n, labels, c, p);
      var x, y, z := ProposeChild(cfg, lexicon, score, h, j, n, child),
        ProposeWords(cfg, lexicon, score, h, j, n, labels),
                     ProposeUnknown(cfg, lexicon, score, h, j, n, labels);
      ShiftConcat(x + y, z, c);
      ShiftConcat(x, y, c);
    }
  }

  lemma TokenShift(cfg: Config, first: bool, row: seq<real>, h: Node, j: int, n: int, c: real, p: int)
    ensures ProposeToken(cfg, first, row, Moved(h, c, p), j, n) == Shift(ProposeToken(cfg, first, row, h, j, n), c)
  {
    hide Moved, ProposeFree, ProposeLex;
    match cfg.lexicon
    case None =>
      FreeShift(cfg, first, row, h, j, n, c, p);
      ShiftOne(ProposeFree(cfg, first, row, h, j, n), c);
    case Some(lexicon) => LexShift(cfg, lexicon, first, row, h, j, n, c, p);
  }

  lemma {:induction false} TokensShift(cfg: Config, first: bool, row: seq<real>, tokens: seq<int>, h: Node, j: int,
                                       c: real, p: int)
    ensures ProposeTokens(cfg, first, row, tokens, Moved(h, c, p), j)
      == Shift(ProposeTokens(cfg, first, row, tokens, h, j), c)
  {
    hide ProposeToken;
    if tokens != [] {
      var k := |tokens| - 1;
      TokensShift(cfg, first, row, tokens[..k], h, j, c, p);
      TokenShift(cfg, first, row, h, j, tokens[k], c, p);
      ShiftConcat(ProposeTokens(cfg, first, row, tokens[..k], h, j), ProposeToken(cfg, first, row, h, j, tokens[k]), c);
    }
  }

  lemma StayShift(cfg: Config, first: bool, row: seq<real>, h: Node, j: int, c: real, p: int)
    ensures ProposeStay(cfg, first, row, Moved(h, c, p), j) == Shift(ProposeStay(cfg, first, row, h, j), c)
  {
    hide AcousticStep;
  }

  lemma FromShift(cfg: Config, first: bool, row: seq<real>, tokens: seq<int>, h: Node, j: int, c: real, p: int)
    ensures ProposeFrom(cfg, first, row, tokens, Moved(h, c, p), j)
      == Shift(ProposeFrom(cfg, first, row, tokens, h, j), c)
  {
    hide ProposeTokens, ProposeStay;
    TokensShift(cfg, first, row, tokens, h, j, c, p);
    StayShift(cfg, first, row, h, j, c, p);
    ShiftConcat(ProposeTokens(cfg, first, row, tokens, h, j), ProposeStay(cfg, first, row, h, j), c);
  }

  lemma {:induction false} AllShift(cfg: Config, first: bool, row: seq<real>, tokens: seq<int>, beam: seq<Node>,
                                    beam': seq<Node>, c: real)
    requires Alike(beam, beam', c)
    ensures ProposeAll(cfg, first, row, tokens, beam') == Shift(ProposeAll(cfg, first, row, tokens, beam), c)
  {
    hide ProposeFrom, Moved;
    if beam != [] {
      var n := |beam| - 1;
      AllShift(cfg, first, row, tokens, beam[..n], beam'[..n], c);
      FromShift(cfg, first, row, tokens, beam[n], n, c, beam'[n].parent);
      ShiftConcat(ProposeAll(cfg, first, row, tokens, beam[..n]), ProposeFrom(cfg, first, row, tokens, beam[n], n), c);
    }
  }

  /** The next beam of an offset beam is the offset next beam. */
  lemma FrameShift(cfg: Config, first: bool, row: seq<real>, beam: seq<Node>, out: seq<Node>, beam': seq<Node>, c: real)
    requires Uniform(cfg.merge) && FrameStep(cfg, first, row, beam, out) && Alike(beam, beam', c)
    ensures FrameStep(cfg, first, row, beam', Shift(out, c))
  {
    hide TokenChoice, ProposeAll, Stored, Alike, Uniform;
    var tokens :| TokenChoice(row, cfg.beamSizeToken, tokens)
      && Stored(cfg.merge, cfg.beamSize, cfg.threshold, ProposeAll(cfg, first, row, tokens, beam), false, out);
    AllShift(cfg, first, row, tokens, beam, beam', c);
    ShiftStored(cfg.merge, cfg.beamSize, cfg.threshold, ProposeAll(cfg, first, row, tokens, beam), false, out, c);
  }

  lemma ProposeFinalShift(cfg: Config, h: Node, j: int, c: real, p: int)
    ensures ProposeFinal(cfg, Moved(h, c, p), j) == Raised(ProposeFinal(cfg, h, j), c)
  {
    hide Weighted;
  }

  lemma {:induction false} FinalsShift(cfg: Config, nice: bool, beam: seq<Node>, beam': seq<Node>, c: real)
    requires Alike(beam, beam', c)
    ensures ProposeFinals(cfg, nice, beam') == Shift(ProposeFinals(cfg, nice, beam), c)
  {
    hide ProposeFinal;
    if beam != [] {
      var n := |beam| - 1;
      FinalsShift(cfg, nice, beam[..n], beam'[..n], c);
      ProposeFinalShift(cfg, beam[n], n, c, beam'[n].parent);
      ShiftOne(ProposeFinal(cfg, beam[n], n), c);
      var last := if !nice || beam[n].lex == 0 then [ProposeFinal(cfg, beam[n], n)] else [];
      ShiftConcat(ProposeFinals(cfg, nice, beam[..n]), last, c);
    }
  }

  lemma NiceShift(cfg: Config, beam: seq<Node>, beam': seq<Node>, c: real)
    requires Alike(beam, beam', c)
    ensures NiceEnding(cfg, beam) == NiceEnding(cfg, beam')
  {
    assert forall i :: 0 <= i < |beam| ==> beam[i].lex == beam'[i].lex;
  }

  lemma FinalShift(cfg: Config, beam: seq<Node>, out: seq<Node>, beam': seq<Node>, c: real)
    requires Uniform(cfg.merge) && FinalStep(cfg, beam, out) && Alike(beam, beam', c)
    ensures FinalStep(cfg, beam', Shift(out, c))
  {
    hide ProposeFinals, NiceEnding, Stored, Alike, Uniform;
    var nice := NiceEnding(cfg, beam);
    NiceShift(cfg, beam, beam', c);
    FinalsShift(cfg, nice, beam, beam', c);
    ShiftStored(cfg.merge, cfg.beamSize, cfg.threshold, ProposeFinals(cfg, nice, beam), true, out, c);
  }
}
