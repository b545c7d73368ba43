/** What the two frame-synchronous decoders propose for one frame, with and
    without a lexicon, and the steps of their shared state machine. */
module Decoder {
  import opened Scores
  import opened Wrappers
  import opened Candidates
  import opened BeamStore

  datatype Criterion = ASG | CTC

  /** A language model as a deterministic automaton over numbered states. */
  datatype LM = LM(start: int, score: (int, int) -> (int, real), finish: int -> (int, real))

  /** A trie node: child per token, the words spelled by the path to it, and its smeared score. */
  datatype TrieNode = TrieNode(children: map<int, int>, labels: seq<int>, maxScore: real)

  datatype Config = Config(
    beamSize: nat, beamSizeToken: nat, threshold: real,
    lmWeight: real, wordScore: real, unkScore: Option<real>, silScore: real,
    merge: Merge, criterion: Criterion, lm: LM, sil: int, blank: int, unk: int,
    trans: Weights,
    lexicon: Option<seq<TrieNode>>,   // node 0 is the root; None: lexicon-free
    isLmToken: bool)

  function Emission(row: seq<real>, n: int): real {
    if 0 <= n < |row| then row[n] else 0.0
  }

  function Lookup(lexicon: seq<TrieNode>, i: int): TrieNode {
    if 0 <= i < |lexicon| then lexicon[i] else TrieNode(map[], [], 0.0)
  }

  /** What taking token n after h adds, apart from the language model: its
      emission, the ASG transition except at the very first frame, the silence score. */
  function AcousticStep(cfg: Config, first: bool, row: seq<real>, prevToken: int, n: int): real {
    Emission(row, n)
    + (if !first && cfg.criterion == ASG then At(cfg.trans, n, prevToken) else 0.0)
    + (if n == cfg.sil then cfg.silScore else 0.0)
  }

  function Weighted(cfg: Config, lmScore: real): real {
    cfg.lmWeight * lmScore
  }

  // ---- Without a lexicon

  function ProposeFree(cfg: Config, first: bool, row: seq<real>, h: Node, j: int, n: int): Node {
    var score := h.score + AcousticStep(cfg, first, row, h.token, n);
    if (cfg.criterion == ASG && n != h.token)
      || (cfg.criterion == CTC && n != cfg.blank && (n != h.token || h.prevBlank)) then
      var (state, lmScore) := cfg.lm.score(h.lm, n);
      Node(state, 0, j, score + Weighted(cfg, lmScore), n, -1, false)
    else
      Node(h.lm, 0, j, score, n, -1, cfg.criterion == CTC && n == cfg.blank)
  }

  // ---- With a lexicon

  function Smear(lexicon: seq<TrieNode>, lex: int): real {
    if lex == 0 then 0.0 else Lookup(lexicon, lex).maxScore
  }

  function ProposeChild(cfg: Config, lexicon: seq<TrieNode>, score: real, h: Node, j: int, n: int,
                        child: int): seq<Node> {
    if (cfg.criterion != CTC || h.prevBlank || n != h.token) && Lookup(lexicon, child).children != map[] then
      var (state, lmScore) := if cfg.isLmToken then cfg.lm.score(h.lm, n)
                              else (h.lm, Lookup(lexicon, child).maxScore - Smear(lexicon, h.lex));
      [Node(state, child, j, score + Weighted(cfg, lmScore), n, -1, false)]
    else []
  }

  function ProposeWord(cfg: Config, lexicon: seq<TrieNode>, score: real, h: Node, j: int, n: int, word: int,
                       bonus: real): Node {
    var (state, lmScore) := if cfg.isLmToken then cfg.lm.score(h.lm, n)
                            else var (s, l) := cfg.lm.score(h.lm, word); (s, l - Smear(lexicon, h.lex));
    Node(state, 0, j, score + Weighted(cfg, lmScore) + bonus, n, word, false)
  }

  function ProposeWords(cfg: Config, lexicon: seq<TrieNode>, score: real, h: Node, j: int, n: int,
                        labels: seq<int>): seq<Node> {
    seq(|labels|, i requires 0 <= i < |labels| => ProposeWord(cfg, lexicon, score, h, j, n, labels[i], cfg.wordScore))
  }

  function ProposeUnknown(cfg: Config, lexicon: seq<TrieNode>, score: real, h: Node, j: int, n: int,
                          labels: seq<int>): seq<Node> {
    if labels == [] && cfg.unkScore.Some?
    then [ProposeWord(cfg, lexicon, score, h, j, n, cfg.unk, cfg.unkScore.value)]
    else []
  }

  function ProposeLex(cfg: Config, lexicon: seq<TrieNode>, first: bool, row: seq<real>, h: Node, j: int,
                      n: int): seq<Node> {
    var children := Lookup(lexicon, h.lex).children;
    if n !in children then []
    else
      var child := children[n];
      var score := h.score + AcousticStep(cfg, first, row, h.token, n);
      ProposeChild(cfg, lexicon, score, h, j, n, child)
      + ProposeWords(cfg, lexicon, score, h, j, n, Lookup(lexicon, child).labels)
      + ProposeUnknown(cfg, lexicon, score, h, j, n, Lookup(lexicon, child).labels)
  }

  /** Staying on the lexicon node, and the CTC blank. */
  function ProposeStay(cfg: Config, first: bool, row: seq<real>, h: Node, j: int): seq<Node> {
    (if cfg.criterion != CTC || !h.prevBlank
     then [Node(h.lm, h.lex, j, h.score + AcousticStep(cfg, first, row, h.token, h.token), h.token, -1, false)] else [])
    + (if cfg.criterion == CTC then [Node(h.lm, h.lex, j, h.score + Emission(row, cfg.blank), cfg.blank, -1, true)]
       else [])
  }

  // ---- One frame

  function ProposeToken(cfg: Config, first: bool, row: seq<real>, h: Node, j: int, n: int): seq<Node> {
    match cfg.lexicon
    case None => [ProposeFree(cfg, first, row, h, j, n)]
    case Some(lexicon) => ProposeLex(cfg, lexicon, first, row, h, j, n)
  }

  function ProposeTokens(cfg: Config, first: bool, row: seq<real>, tokens: seq<int>, h: Node, j: int): seq<Node> {
    if tokens == [] then []
    else ProposeTokens(cfg, first, row, tokens[..|tokens| - 1], h, j)
         + ProposeToken(cfg, first, row, h, j, tokens[|tokens| - 1])
  }

  /** Everything proposed from the hypothesis at position j. */
  function ProposeFrom(cfg: Config, first: bool, row: seq<real>, tokens: seq<int>, h: Node, j: int): seq<Node> {
    ProposeTokens(cfg, first, row, tokens, h, j)
    + (if cfg.lexicon.Some? then ProposeStay(cfg, first, row, h, j) else [])
  }

  function ProposeAll(cfg: Config, first: bool, row: seq<real>, tokens: seq<int>, beam: seq<Node>): seq<Node> {
    if beam == [] then []
    else
      var n := |beam| - 1;
      ProposeAll(cfg, first, row, tokens, beam[..n]) + ProposeFrom(cfg, first, row, tokens, beam[n], n)
  }

  /** The tokens considered: all in order, or the best few of them in falling order. */
  ghost predicate TokenChoice(row: seq<real>, K: nat, tokens: seq<int>) {
    if |row| <= K then tokens == seq(|row|, i => i)
    else
      && |tokens| == K
      && (forall i :: 0 <= i < K ==> 0 <= tokens[i] < |row|)
      && (forall i, j :: 0 <= i < j < K ==> tokens[i] != tokens[j] && row[tokens[i]] >= row[tokens[j]])
      && (forall i, n :: 0 <= i < K && 0 <= n < |row| && n !in tokens ==> row[tokens[i]] >= row[n])
  }

  /** out may follow beam over one frame of emissions. */
  ghost predicate FrameStep(cfg: Config, first: bool, row: seq<real>, beam: seq<Node>, out: seq<Node>) {
    exists tokens :: TokenChoice(row, cfg.beamSizeToken, tokens)
      && Stored(cfg.merge, cfg.beamSize, cfg.threshold, ProposeAll(cfg, first, row, tokens, beam), false, out)
  }

  // ---- The end of the utterance

  function ProposeFinal(cfg: Config, h: Node, j: int): Node {
    var (state, lmScore) := cfg.lm.finish(h.lm);
    Node(state, h.lex, j, h.score + Weighted(cfg, lmScore), cfg.sil, -1, false)
  }

  /** Some hypothesis ends at the root: then only those that do are kept. */
  predicate NiceEnding(cfg: Config, beam: seq<Node>) {
    cfg.lexicon.Some? && exists i :: 0 <= i < |beam| && beam[i].lex == 0
  }

  function ProposeFinals(cfg: Config, nice: bool, beam: seq<Node>): seq<Node> {
    if beam == [] then []
    else
      var n := |beam| - 1;
      ProposeFinals(cfg, nice, beam[..n]) + (if !nice || beam[n].lex == 0 then [ProposeFinal(cfg, beam[n], n)] else [])
  }

  ghost predicate FinalStep(cfg: Config, beam: seq<Node>, out: seq<Node>) {
    Stored(cfg.merge, cfg.beamSize, cfg.threshold, ProposeFinals(cfg, NiceEnding(cfg, beam), beam), true, out)
  }

  // ---- Everything proposed points at its parent

  predicate ChildrenOf(s: seq<Node>, j: int) {
    forall i :: 0 <= i < |s| ==> s[i].parent == j
  }

  lemma TokenParent(cfg: Config, first: bool, row: seq<real>, h: Node, j: int, n: int)
    ensures ChildrenOf(ProposeToken(cfg, first, row, h, j, n), j)
  {
    hide AcousticStep, Lookup, Smear;
  }

  lemma {:induction false} TokensParent(cfg: Config, first: bool, row: seq<real>, tokens: seq<int>, h: Node, j: int)
    ensures ChildrenOf(ProposeTokens(cfg, first, row, tokens, h, j), j)
  {
    hide ProposeToken;
    if tokens != [] {
      TokensParent(cfg, first, row, tokens[..|tokens| - 1], h, j);
      TokenParent(cfg, first, row, h, j, tokens[|tokens| - 1]);
    }
  }

  lemma FromParent(cfg: Config, first: bool, row: seq<real>, tokens: seq<int>, h: Node, j: int)
    ensures ChildrenOf(ProposeFrom(cfg, first, row, tokens, h, j), j)
  {
    hide ProposeTokens, AcousticStep;
    TokensParent(cfg, first, row, tokens, h, j);
  }

  /** Parents are positions in a beam of n hypotheses. */
  predicate Linked(s: seq<Node>, n: nat) {
    forall i :: 0 <= i < |s| ==> 0 <= s[i].parent < n
  }

  lemma {:induction false} ProposalsLinked(cfg: Config, first: bool, row: seq<real>, tokens: seq<int>, beam: seq<Node>)
    ensures Linked(ProposeAll(cfg, first, row, tokens, beam), |beam|)
  {
    hide ProposeFrom;
    if beam != [] {
      var n := |beam| - 1;
      ProposalsLinked(cfg, first, row, tokens, beam[..n]);
      FromParent(cfg, first, row, tokens, beam[n], n);
    }
  }

  lemma {:induction false} FinalsLinked(cfg: Config, nice: bool, beam: seq<Node>)
    ensures Linked(ProposeFinals(cfg, nice, beam), |beam|)
  {
    if beam != [] { FinalsLinked(cfg, nice, beam[..|beam| - 1]); }
  }
}
