/** Log-add over whole utterances: without a lexicon, every hypothesis carries the mass of
    all the label sequences that lead to its state. */
module FreeMass {
  import opened Sums
  import opened Candidates
  import opened BeamStore
  import opened Decoder
  import opened Online
  import opened DecoderScore
  import opened FreeScore
  import opened FreeExact

  // ---- The mass of a score

  predicate Multiplies(mass: real -> real, x: real, y: real) {
    mass(x + y) == mass(x) * mass(y)
  }

  /** Mass behaves like an exponential: positive, rising, and turning sums into products. */
  ghost predicate IsExp(mass: real -> real) {
    && (forall x :: mass(x) > 0.0) && (forall x, y :: x < y ==> mass(x) < mass(y))
    && forall x: real, y: real :: Multiplies(mass, x, y)
  }

  lemma ExpAdds(mass: real -> real, x: real, y: real)
    requires IsExp(mass)
    ensures mass(x + y) == mass(x) * mass(y) && mass(x) > 0.0 && mass(y) > 0.0
  {
    assert Multiplies(mass, x, y);
  }

  lemma ExpOrders(mass: real -> real, x: real, y: real)
    requires IsExp(mass) && mass(x) <= mass(y)
    ensures x <= y
  {
  }

  /** The mass of the label sequences. */
  ghost function SeqMass(cfg: Config, mass: real -> real, rows: seq<seq<real>>): seq<int> -> real {
    s => mass(FreeObjective(cfg, rows, s))
  }

  /** Only of those that lead to the state of x. */
  ghost function KeyedMass(cfg: Config, mass: real -> real, rows: seq<seq<real>>, x: Node): seq<int> -> real {
    s => if StandsAt(cfg, s, x) then mass(FreeObjective(cfg, rows, s)) else 0.0
  }

  lemma OneState(cfg: Config, s: seq<int>, a: Node, b: Node)
    requires StandsAt(cfg, s, a) && StandsAt(cfg, s, b)
    ensures SameKey(a, b)
  {
  }

  // ---- What a beam carries

  ghost predicate Represented(cfg: Config, s: seq<int>, beam: seq<Node>) {
    exists j :: 0 <= j < |beam| && StandsAt(cfg, s, beam[j])
  }

  ghost predicate Reached(cfg: Config, N: nat, t: nat, x: Node) {
    exists s :: |s| == t && Below(s, N) && StandsAt(cfg, s, x)
  }

  /** Each state is held once, each label sequence leads to one of them, some leads to each,
      and each carries the mass of all that do. */
  ghost predicate Carries(cfg: Config, mass: real -> real, N: nat, rows: seq<seq<real>>, t: nat, beam: seq<Node>) {
    && DistinctKeys(beam)
    && (forall s :: |s| == t && Below(s, N) ==> Represented(cfg, s, beam))
    && (forall i :: 0 <= i < |beam| ==> Reached(cfg, N, t, beam[i]))
    && (forall i :: 0 <= i < |beam| ==>
         mass(beam[i].score) == SumSequences(N, t, KeyedMass(cfg, mass, rows, beam[i])))
  }

  lemma StartCarries(cfg: Config, mass: real -> real, N: nat, rows: seq<seq<real>>)
    ensures Carries(cfg, mass, N, rows, 0, Begin(cfg).beams[0])
  {
    hide StandsAt, FreeObjective;
    var beam := Begin(cfg).beams[0];
    StartStands(cfg, rows);
    assert Below([], N);
    forall s: seq<int> | |s| == 0 && Below(s, N) ensures Represented(cfg, s, beam) { assert s == []; }
  }

  // ---- The mass of a frame's proposals

  lemma {:induction false} MassConcat(w: Node -> real, a: seq<Node>, b: seq<Node>)
    ensures TotalMass(w, a + b) == TotalMass(w, a) + TotalMass(w, b)
  {
    if b == [] {
      assert a + b == a;
    } else {
      var n := |b| - 1;
      MassConcat(w, a, b[..n]);
      assert a + b == (a + b[..n]) + [b[n]];
      MassSnoc(w, a + b[..n], b[n]);
    }
  }

  lemma {:induction false} TokensMass(cfg: Config, first: bool, row: seq<real>, tokens: seq<int>, h: Node, j: int,
                                      w: Node -> real, f: int -> real)
    requires cfg.lexicon.None?
    requires forall i :: 0 <= i < |tokens| ==> f(i) == w(ProposeFree(cfg, first, row, h, j, tokens[i]))
    ensures TotalMass(w, ProposeTokens(cfg, first, row, tokens, h, j)) == Sum(|tokens|, f)
  {
    hide ProposeFree;
    if tokens != [] {
      var n := |tokens| - 1;
      TokensMass(cfg, first, row, tokens[..n], h, j, w, f);
      MassSnoc(w, ProposeTokens(cfg, first, row, tokens[..n], h, j), ProposeFree(cfg, first, row, h, j, tokens[n]));
    }
  }

  lemma {:induction false} AllMass(cfg: Config, first: bool, row: seq<real>, tokens: seq<int>, beam: seq<Node>,
                                   w: Node -> real, parts: int -> real)
    requires cfg.lexicon.None?
    requires forall j :: 0 <= j < |beam| ==>
      parts(j) == TotalMass(w, ProposeTokens(cfg, first, row, tokens, beam[j], j))
    ensures TotalMass(w, ProposeAll(cfg, first, row, tokens, beam)) == Sum(|beam|, parts)
  {
    hide ProposeTokens, TotalMass;
    if beam == [] {
      NoMass(w);
    } else {
      var n := |beam| - 1;
      AllMass(cfg, first, row, tokens, beam[..n], w, parts);
      var last := ProposeTokens(cfg, first, row, tokens, beam[n], n);
      assert ProposeFrom(cfg, first, row, tokens, beam[n], n) == last;
      MassConcat(w, ProposeAll(cfg, first, row, tokens, beam[..n]), last);
    }
  }

  lemma NoMass(w: Node -> real)
    ensures TotalMass(w, []) == 0.0
  {
  }

  /** The mass one token adds on the way from h to the state of x. */
  ghost function Taken(cfg: Config, mass: real -> real, first: bool, row: seq<real>, h: Node, j: int, x: Node)
    : int -> real {
    n => var p := ProposeFree(cfg, first, row, h, j, n); if SameKey(p, x) then mass(p.score - h.score) else 0.0
  }

  /** What h contributes to the state of x. */
  lemma PartMass(cfg: Config, mass: real -> real, first: bool, row: seq<real>, h: Node, j: int, x: Node)
    requires cfg.lexicon.None? && IsExp(mass)
    ensures TotalMass(ByKey(mass, x), ProposeTokens(cfg, first, row, seq(|row|, i => i), h, j))
      == mass(h.score) * Sum(|row|, Taken(cfg, mass, first, row, h, j, x))
  {
    hide ProposeFree, TotalMass, ProposeTokens, Sum, IsExp;
    var w := ByKey(mass, x);
    var f: int -> real := n => w(ProposeFree(cfg, first, row, h, j, n));
    TokensMass(cfg, first, row, seq(|row|, i => i), h, j, w, f);
    var taken := Taken(cfg, mass, first, row, h, j, x);
    forall n | 0 <= n < |row| ensures f(n) == mass(h.score) * taken(n) {
      var p := ProposeFree(cfg, first, row, h, j, n);
      ExpAdds(mass, h.score, p.score - h.score);
      assert h.score + (p.score - h.score) == p.score;
    }
    SumScale(|row|, mass(h.score), taken, f);
  }

  // ---- When a frame drops nothing

  lemma {:induction false} AtLeastAll(s: seq<Node>, cut: real)
    requires forall i :: 0 <= i < |s| ==> s[i].score >= cut
    ensures AtLeast(s, cut) == s
  {
    if s != [] {
      AtLeastAll(s[..|s| - 1], cut);
      assert s == s[..|s| - 1] + [s[|s| - 1]];
    }
  }

  lemma AllSurvive(K: nat, threshold: real, proposals: seq<Node>)
    requires Lossless(K, threshold, proposals)
    ensures Survivors(proposals, threshold) == proposals
  {
    hide AtLeast, AddAll;
    AddAllBest(proposals, threshold);
    if proposals != [] {
      var best := AddAll(proposals, threshold).best.value;
      SurvivorsExact(proposals, threshold, best);
      AtLeastAll(proposals, best - threshold);
    }
  }

  /** Every state proposed is held, once. */
  lemma StoredStates(merge: Merge, K: nat, threshold: real, proposals: seq<Node>, out: seq<Node>)
    requires Stored(merge, K, threshold, proposals, false, out) && Lossless(K, threshold, proposals)
    ensures DistinctKeys(out)
    ensures forall p :: p in proposals ==> Key(p) in Keys(out)
  {
    hide MergeAdjacent, Sorted, Survivors, Lossless, Key;
    AllSurvive(K, threshold, proposals);
    if proposals != [] {
      var order, top :| StoredVia(merge, K, proposals, false, order, top, out);
      NonEmptyOrder(order, proposals);
      MergeMeaning(merge, order);
      MergeShrinks(merge, order);
      assert |order| == |multiset(order)| == |multiset(proposals)| == |proposals|;
      LosslessRoom(K, threshold, proposals);
      assert out == MergeAdjacent(merge, order);
      forall p | p in proposals ensures Key(p) in Keys(out) {
        MultisetMember(proposals, order, p);
        var i :| 0 <= i < |order| && order[i] == p;
        KeyPresent(order, i);
      }
    }
  }

  lemma LosslessRoom(K: nat, threshold: real, proposals: seq<Node>)
    requires Lossless(K, threshold, proposals)
    ensures |proposals| <= K
  {
  }

  // ---- One frame

  /** A frame over all N tokens, from a beam that carries its mass, that drops nothing. */
  ghost predicate IsFrame(cfg: Config, add: (real, real) -> real, mass: real -> real, N: nat, rows: seq<seq<real>>,
                          t: nat, beam: seq<Node>, out: seq<Node>) {
    && cfg.lexicon.None? && cfg.merge == LogAdd(add) && IsMass(add, mass) && IsExp(mass)
    && t < |rows| && |rows[t]| == N && Carries(cfg, mass, N, rows, t, beam)
    && var proposals := ProposeAll(cfg, t == 0, rows[t], seq(N, i => i), beam);
       Stored(cfg.merge, cfg.beamSize, cfg.threshold, proposals, false, out)
       && Lossless(cfg.beamSize, cfg.threshold, proposals)
  }

  /** What the hypotheses of a beam contribute to the state of x. */
  ghost function Part(cfg: Config, mass: real -> real, N: nat, row: seq<real>, t: nat, beam: seq<Node>, x: Node, j: int)
    : real {
    if 0 <= j < |beam| then Sum(N, Taken(cfg, mass, t == 0, row, beam[j], j, x)) else 0.0
  }

  /** The mass stored is what all hypotheses contribute. */
  lemma StoredParts(cfg: Config, add: (real, real) -> real, mass: real -> real, N: nat, rows: seq<seq<real>>, t: nat,
                    beam: seq<Node>, out: seq<Node>, x: Node, parts: int -> real)
    requires IsFrame(cfg, add, mass, N, rows, t, beam, out) && x in out
    requires forall j :: 0 <= j < |beam| ==>
      parts(j) == Part(cfg, mass, N, rows[t], t, beam, x, j) * mass(beam[j].score)
    ensures mass(x.score) == Sum(|beam|, parts)
  {
    hide Carries, IsMass, IsExp, Stored, Lossless, ProposeAll, ProposeTokens, TotalMass, Sum, Survivors, Taken;
    var all := seq(N, i => i);
    var proposals := ProposeAll(cfg, t == 0, rows[t], all, beam);
    StoredKeyMass(add, mass, cfg.beamSize, cfg.threshold, proposals, false, out, x);
    AllSurvive(cfg.beamSize, cfg.threshold, proposals);
    KeyMassIs(mass, proposals, x);
    forall j | 0 <= j < |beam|
      ensures parts(j) == TotalMass(ByKey(mass, x), ProposeTokens(cfg, t == 0, rows[t], all, beam[j], j))
    {
      PartMass(cfg, mass, t == 0, rows[t], beam[j], j, x);
    }
    AllMass(cfg, t == 0, rows[t], all, beam, ByKey(mass, x), parts);
  }

  /** From where s leads, a token takes it to the state of x exactly when it is proposed
      there, and the masses agree. */
  lemma TakenMeans(cfg: Config, mass: real -> real, rows: seq<seq<real>>, s: seq<int>, h: Node, j: int, x: Node, n: int)
    requires |s| < |rows| && StandsAt(cfg, s, h) && IsExp(mass)
    ensures KeyedMass(cfg, mass, rows, x)(s + [n])
      == mass(FreeObjective(cfg, rows, s)) * Taken(cfg, mass, s == [], rows[|s|], h, j, x)(n)
  {
    hide StandsAt, FreeObjective, IsExp, ProposeFree, Gain, SameKey;
    var p := ProposeFree(cfg, s == [], rows[|s|], h, j, n);
    ProposeGains(cfg, rows, s, h, j, n);
    ObjectiveSnoc(cfg, rows, s, n);
    ExpAdds(mass, FreeObjective(cfg, rows, s), Gain(cfg, rows, s, n));
    assert p.score - h.score == Gain(cfg, rows, s, n);
    if SameKey(p, x) {
      KeySymmetric(p, x);
      SameStand(cfg, s + [n], p, x);
    } else if StandsAt(cfg, s + [n], x) {
      OneState(cfg, s + [n], p, x);
    }
  }

  /** A label sequence leads to one hypothesis of the beam. */
  lemma LeadsTo(cfg: Config, mass: real -> real, N: nat, rows: seq<seq<real>>, t: nat, beam: seq<Node>, s: seq<int>)
    returns (j: int)
    requires Carries(cfg, mass, N, rows, t, beam) && |s| == t && Below(s, N)
    ensures 0 <= j < |beam| && StandsAt(cfg, s, beam[j])
    ensures forall i :: 0 <= i < |beam| && i != j ==> !StandsAt(cfg, s, beam[i])
  {
    hide StandsAt, SameKey, SumSequences;
    assert Represented(cfg, s, beam);
    j :| 0 <= j < |beam| && StandsAt(cfg, s, beam[j]);
    forall i | 0 <= i < |beam| && i != j ensures !StandsAt(cfg, s, beam[i]) {
      if StandsAt(cfg, s, beam[i]) {
        OneState(cfg, s, beam[i], beam[j]);
        OneState(cfg, s, beam[j], beam[i]);
      }
    }
  }

  lemma MassAt(cfg: Config, mass: real -> real, N: nat, rows: seq<seq<real>>, t: nat, beam: seq<Node>, i: int)
    requires Carries(cfg, mass, N, rows, t, beam) && 0 <= i < |beam|
    ensures mass(beam[i].score) == SumSequences(N, t, KeyedMass(cfg, mass, rows, beam[i]))
    ensures Reached(cfg, N, t, beam[i])
  {
    hide KeyedMass, SumSequences;
  }

  /** What s adds by one more token. */
  lemma LastPart(cfg: Config, mass: real -> real, N: nat, rows: seq<seq<real>>, s: seq<int>, h: Node, j: int, x: Node)
    requires |s| < |rows| && StandsAt(cfg, s, h) && IsExp(mass)
    ensures mass(FreeObjective(cfg, rows, s)) * Sum(N, Taken(cfg, mass, |s| == 0, rows[|s|], h, j, x))
      == LastSum(N, KeyedMass(cfg, mass, rows, x))(s)
  {
    hide StandsAt, FreeObjective, IsExp, Sum, Taken, KeyedMass;
    var taken, phi := Taken(cfg, mass, |s| == 0, rows[|s|], h, j, x), KeyedMass(cfg, mass, rows, x);
    var last: int -> real := n => phi(s + [n]);
    assert (|s| == 0) == (s == []);
    forall n | 0 <= n < N ensures last(n) == mass(FreeObjective(cfg, rows, s)) * taken(n) {
      TakenMeans(cfg, mass, rows, s, h, j, x, n);
    }
    SumScale(N, mass(FreeObjective(cfg, rows, s)), taken, last);
    SumExt(N, last, n => phi(s + [n]));
  }

  /** Of hypothesis j's contribution, what is due to the sequence s. */
  ghost function Share(cfg: Config, mass: real -> real, N: nat, rows: seq<seq<real>>, t: nat, beam: seq<Node>, x: Node)
    : (int, seq<int>) -> real
    requires t < |rows|
  {
    (j, s) => if 0 <= j < |beam|
      then Part(cfg, mass, N, rows[t], t, beam, x, j) * KeyedMass(cfg, mass, rows, beam[j])(s) else 0.0
  }

  /** All that the sequence s contributes, through the one hypothesis it leads to. */
  lemma SequencePart(cfg: Config, mass: real -> real, N: nat, rows: seq<seq<real>>, t: nat, beam: seq<Node>, x: Node,
                     s: seq<int>)
    requires t < |rows| && IsExp(mass) && Carries(cfg, mass, N, rows, t, beam) && |s| == t && Below(s, N)
    ensures ColumnSum(|beam|, Share(cfg, mass, N, rows, t, beam, x))(s) == LastSum(N, KeyedMass(cfg, mass, rows, x))(s)
  {
    hide StandsAt, FreeObjective, IsExp, Sum, Carries, LastSum, Share, KeyedMass, Taken;
    var F := Share(cfg, mass, N, rows, t, beam, x);
    var j := LeadsTo(cfg, mass, N, rows, t, beam, s);
    var f: int -> real := i => F(i, s);
    forall i | 0 <= i < |beam| && i != j ensures f(i) == 0.0 { ShareIs(cfg, mass, N, rows, t, beam, x, i, s); }
    ShareIs(cfg, mass, N, rows, t, beam, x, j, s);
    SumPick(|beam|, j, f);
    SumExt(|beam|, f, i => F(i, s));
    LastPart(cfg, mass, N, rows, s, beam[j], j, x);
  }

  lemma ShareIs(cfg: Config, mass: real -> real, N: nat, rows: seq<seq<real>>, t: nat, beam: seq<Node>, x: Node,
                j: int, s: seq<int>)
    requires t < |rows| && 0 <= j < |beam|
    ensures Share(cfg, mass, N, rows, t, beam, x)(j, s)
      == Part(cfg, mass, N, rows[t], t, beam, x, j) * KeyedMass(cfg, mass, rows, beam[j])(s)
    ensures !StandsAt(cfg, s, beam[j]) ==> Share(cfg, mass, N, rows, t, beam, x)(j, s) == 0.0
    ensures StandsAt(cfg, s, beam[j]) ==>
      Share(cfg, mass, N, rows, t, beam, x)(j, s)
      == mass(FreeObjective(cfg, rows, s)) * Sum(N, Taken(cfg, mass, t == 0, rows[t], beam[j], j, x))
  {
    hide StandsAt, FreeObjective, Sum, Taken;
    var keyed := KeyedMass(cfg, mass, rows, beam[j])(s);
    if StandsAt(cfg, s, beam[j]) {
      assert keyed == mass(FreeObjective(cfg, rows, s));
    } else {
      assert keyed == 0.0;
      assert Part(cfg, mass, N, rows[t], t, beam, x, j) * 0.0 == 0.0;
    }
  }

  /** The contribution of a hypothesis is the sum of its shares. */
  lemma SharesOf(cfg: Config, mass: real -> real, N: nat, rows: seq<seq<real>>, t: nat, beam: seq<Node>, x: Node,
                 j: int)
    requires t < |rows| && Carries(cfg, mass, N, rows, t, beam) && 0 <= j < |beam|
    ensures Part(cfg, mass, N, rows[t], t, beam, x, j) * mass(beam[j].score)
      == SumSequences(N, t, Row(Share(cfg, mass, N, rows, t, beam, x), j))
  {
    hide Carries, Part, KeyedMass, SumExtensions, Share, Sum, StandsAt, FreeObjective, Reached;
    MassAt(cfg, mass, N, rows, t, beam, j);
    var part, keyed := Part(cfg, mass, N, rows[t], t, beam, x, j), KeyedMass(cfg, mass, rows, beam[j]);
    var shares := Row(Share(cfg, mass, N, rows, t, beam, x), j);
    forall s ensures shares(s) == part * keyed(s) { ShareIs(cfg, mass, N, rows, t, beam, x, j, s); }
    SumExtensionsScale(N, [], t, part, keyed, shares);
  }

  /** The mass of a hypothesis of the new beam. */
  lemma NextMass(cfg: Config, add: (real, real) -> real, mass: real -> real, N: nat, rows: seq<seq<real>>, t: nat,
                 beam: seq<Node>, out: seq<Node>, x: Node)
    requires IsFrame(cfg, add, mass, N, rows, t, beam, out) && x in out
    ensures mass(x.score) == SumSequences(N, t + 1, KeyedMass(cfg, mass, rows, x))
  {
    hide IsFrame, Carries, IsExp, Part, KeyedMass, SumExtensions, Share, Sum, ColumnSum, LastSum, Row;
    FrameParts(cfg, add, mass, N, rows, t, beam, out);
    var F, phi := Share(cfg, mass, N, rows, t, beam, x), KeyedMass(cfg, mass, rows, x);
    var parts: int -> real := j =>
      if 0 <= j < |beam| then Part(cfg, mass, N, rows[t], t, beam, x, j) * mass(beam[j].score) else 0.0;
    StoredParts(cfg, add, mass, N, rows, t, beam, out, x, parts);
    forall j | 0 <= j < |beam| ensures parts(j) == SumSequences(N, t, Row(F, j)) {
      SharesOf(cfg, mass, N, rows, t, beam, x, j);
    }
    SumExtensionsCases(|beam|, N, t, F, parts);
    forall s: seq<int> | Below(s, N) && |s| == t ensures ColumnSum(|beam|, F)(s) == LastSum(N, phi)(s) {
      SequencePart(cfg, mass, N, rows, t, beam, x, s);
    }
    SumExtensionsExt(N, [], t, ColumnSum(|beam|, F), LastSum(N, phi));
    SumExtensionsLast(N, [], t, phi);
  }

  lemma FrameParts(cfg: Config, add: (real, real) -> real, mass: real -> real, N: nat, rows: seq<seq<real>>, t: nat,
                   beam: seq<Node>, out: seq<Node>)
    requires IsFrame(cfg, add, mass, N, rows, t, beam, out)
    ensures t < |rows| && |rows[t]| == N && IsExp(mass) && Carries(cfg, mass, N, rows, t, beam)
  {
    hide IsExp, IsMass, Carries, Stored, Lossless, ProposeAll;
  }

  /** A proposal comes from one hypothesis by one token. */
  lemma ProposalFrom(cfg: Config, first: bool, row: seq<real>, beam: seq<Node>, p: Node) returns (j: int, n: int)
    requires cfg.lexicon.None? && p in ProposeAll(cfg, first, row, seq(|row|, i => i), beam)
    ensures 0 <= j < |beam| && 0 <= n < |row| && p == ProposeFree(cfg, first, row, beam[j], j, n)
  {
    hide ProposeAll, ProposeFree, ProposeTokens;
    var all := seq(|row|, i => i);
    ProposedBy(cfg, first, row, all, beam, p);
    j := p.parent;
    FreeTokens(cfg, first, row, all, beam[j], j);
    var i :| 0 <= i < |all| && p == ProposeFree(cfg, first, row, beam[j], j, all[i]);
    n := all[i];
  }

  lemma NextRepresented(cfg: Config, add: (real, real) -> real, mass: real -> real, N: nat, rows: seq<seq<real>>,
                        t: nat, beam: seq<Node>, out: seq<Node>, s: seq<int>)
    requires IsFrame(cfg, add, mass, N, rows, t, beam, out) && |s| == t + 1 && Below(s, N)
    requires forall p :: p in ProposeAll(cfg, t == 0, rows[t], seq(N, i => i), beam) ==> Key(p) in Keys(out)
    ensures Represented(cfg, s, out)
  {
    hide Carries, IsExp, IsMass, Stored, Lossless, ProposeAll, StandsAt, ProposeFree, Key, Keys, Gain, SameKey;
    var before, n := s[..t], s[t];
    assert s == before + [n];
    var j := LeadsTo(cfg, mass, N, rows, t, beam, before);
    var p := ProposeFree(cfg, t == 0, rows[t], beam[j], j, n);
    FreeProposed(cfg, t == 0, rows[t], beam, j, n);
    ProposeGains(cfg, rows, before, beam[j], j, n);
    var i := KeyWitness(out, p);
    SameStand(cfg, s, p, out[i]);
  }

  lemma NextReached(cfg: Config, add: (real, real) -> real, mass: real -> real, N: nat, rows: seq<seq<real>>, t: nat,
                    beam: seq<Node>, out: seq<Node>, x: Node)
    requires IsFrame(cfg, add, mass, N, rows, t, beam, out) && x in out
    ensures Reached(cfg, N, t + 1, x)
  {
    hide Carries, IsExp, IsMass, Stored, Lossless, ProposeAll, StandsAt, ProposeFree, Gain;
    var proposals := ProposeAll(cfg, t == 0, rows[t], seq(N, i => i), beam);
    StoredFrom(cfg.merge, cfg.beamSize, cfg.threshold, proposals, false, out, x);
    var i :| 0 <= i < |proposals| && x == Rescored(proposals[i], x.score);
    var j, n := ProposalFrom(cfg, t == 0, rows[t], beam, proposals[i]);
    MassAt(cfg, mass, N, rows, t, beam, j);
    var s :| |s| == t && Below(s, N) && StandsAt(cfg, s, beam[j]);
    ProposeGains(cfg, rows, s, beam[j], j, n);
    SameStand(cfg, s + [n], proposals[i], x);
    assert Below(s + [n], N);
  }

  /** One frame that drops nothing carries the mass on. */
  lemma NextCarries(cfg: Config, add: (real, real) -> real, mass: real -> real, N: nat, rows: seq<seq<real>>, t: nat,
                    beam: seq<Node>, out: seq<Node>)
    requires IsFrame(cfg, add, mass, N, rows, t, beam, out)
    ensures Carries(cfg, mass, N, rows, t + 1, out)
  {
    hide IsFrame, Represented, Reached, DistinctKeys, SumSequences, KeyedMass, Keys, Key;
    FrameStates(cfg, add, mass, N, rows, t, beam, out);
    forall s: seq<int> | |s| == t + 1 && Below(s, N) ensures Represented(cfg, s, out) {
      NextRepresented(cfg, add, mass, N, rows, t, beam, out, s);
    }
    forall i | 0 <= i < |out|
      ensures Reached(cfg, N, t + 1, out[i])
      ensures mass(out[i].score) == SumSequences(N, t + 1, KeyedMass(cfg, mass, rows, out[i]))
    {
      NextReached(cfg, add, mass, N, rows, t, beam, out, out[i]);
      NextMass(cfg, add, mass, N, rows, t, beam, out, out[i]);
    }
  }

  lemma FrameStates(cfg: Config, add: (real, real) -> real, mass: real -> real, N: nat, rows: seq<seq<real>>, t: nat,
                    beam: seq<Node>, out: seq<Node>)
    requires IsFrame(cfg, add, mass, N, rows, t, beam, out)
    ensures DistinctKeys(out) && t < |rows|
    ensures forall p :: p in ProposeAll(cfg, t == 0, rows[t], seq(N, i => i), beam) ==> Key(p) in Keys(out)
  {
    hide Carries, IsExp, IsMass, Stored, Lossless, ProposeAll, Key, Keys, DistinctKeys;
    StoredStates(cfg.merge, cfg.beamSize, cfg.threshold, ProposeAll(cfg, t == 0, rows[t], seq(N, i => i), beam), out);
  }

  // ---- Sizes that are large enough

  /** The mass of all label sequences of length t. */
  ghost function TotalAt(cfg: Config, mass: real -> real, N: nat, rows: seq<seq<real>>, t: nat): real {
    SumSequences(N, t, SeqMass(cfg, mass, rows))
  }

  /** Room for all tokens and for one hypothesis per label sequence, and a threshold that
      lifts any single label sequence to the mass of all of its length. */
  ghost predicate AmpleMass(cfg: Config, mass: real -> real, N: nat, rows: seq<seq<real>>) {
    && N <= cfg.beamSizeToken && (forall t :: 0 <= t < |rows| ==> |rows[t]| == N)
    && (forall t: nat :: t <= |rows| ==> Power(N, t) <= cfg.beamSize)
    && (forall a :: |a| <= |rows| && Below(a, N) ==>
         TotalAt(cfg, mass, N, rows, |a|) <= mass(FreeObjective(cfg, rows, a) + cfg.threshold))
  }

  /** A proposal carries at least the mass of some label sequence. */
  lemma ProposalAtLeast(cfg: Config, mass: real -> real, N: nat, rows: seq<seq<real>>, t: nat, beam: seq<Node>, j: int,
                        n: int) returns (a: seq<int>)
    requires t < |rows| && IsExp(mass) && Carries(cfg, mass, N, rows, t, beam) && 0 <= j < |beam| && 0 <= n < N
    ensures |a| == t + 1 && Below(a, N)
    ensures mass(FreeObjective(cfg, rows, a)) <= mass(ProposeFree(cfg, t == 0, rows[t], beam[j], j, n).score)
  {
    hide Carries, IsExp, StandsAt, ProposeFree, Gain, FreeObjective, SumExtensions;
    MassAt(cfg, mass, N, rows, t, beam, j);
    var s :| |s| == t && Below(s, N) && StandsAt(cfg, s, beam[j]);
    var keyed := KeyedMass(cfg, mass, rows, beam[j]);
    forall r ensures keyed(r) >= 0.0 { ExpAdds(mass, FreeObjective(cfg, rows, r), 0.0); }
    assert s[..0] == [];
    SumExtensionsTerm(N, [], t, keyed, s);
    ProposeGains(cfg, rows, s, beam[j], j, n);
    ObjectiveSnoc(cfg, rows, s, n);
    var g := Gain(cfg, rows, s, n);
    ExpAdds(mass, FreeObjective(cfg, rows, s), g);
    ExpAdds(mass, beam[j].score, g);
    Scaled(mass(FreeObjective(cfg, rows, s)), mass(beam[j].score), mass(g));
    a := s + [n];
  }

  lemma Scaled(a: real, b: real, c: real)
    requires a <= b && c >= 0.0
    ensures a * c <= b * c
  {
    assert (b - a) * c >= 0.0;
  }

  /** Of the mass of a proposal, what is due to the sequence s. */
  lemma SharedMass(cfg: Config, mass: real -> real, N: nat, rows: seq<seq<real>>, h: Node, j: int, n: int, s: seq<int>)
    requires |s| < |rows| && IsExp(mass) && 0 <= n < N
    ensures var g := ProposeFree(cfg, s == [], rows[|s|], h, j, n).score - h.score;
      mass(g) * KeyedMass(cfg, mass, rows, h)(s) <= LastSum(N, SeqMass(cfg, mass, rows))(s)
  {
    hide IsExp, StandsAt, ProposeFree, Gain, FreeObjective, Sum;
    var g, all := ProposeFree(cfg, s == [], rows[|s|], h, j, n).score - h.score, SeqMass(cfg, mass, rows);
    var last: int -> real := c => all(s + [c]);
    forall c ensures last(c) >= 0.0 { ExpAdds(mass, FreeObjective(cfg, rows, s + [c]), 0.0); }
    SumExt(N, last, c => all(s + [c]));
    if StandsAt(cfg, s, h) {
      ProposeGains(cfg, rows, s, h, j, n);
      ObjectiveSnoc(cfg, rows, s, n);
      ExpAdds(mass, FreeObjective(cfg, rows, s), g);
      SumTerm(N, last, n);
    } else {
      SumNonneg(N, last);
      assert mass(g) * 0.0 == 0.0;
    }
  }

  /** A proposal carries at most the mass of all label sequences. */
  lemma ProposalAtMost(cfg: Config, mass: real -> real, N: nat, rows: seq<seq<real>>, t: nat, beam: seq<Node>, j: int,
                       n: int)
    requires t < |rows| && IsExp(mass) && Carries(cfg, mass, N, rows, t, beam) && 0 <= j < |beam| && 0 <= n < N
    ensures mass(ProposeFree(cfg, t == 0, rows[t], beam[j], j, n).score) <= TotalAt(cfg, mass, N, rows, t + 1)
  {
    hide Carries, IsExp, ProposeFree, SumExtensions, KeyedMass, SeqMass, LastSum, Reached;
    MassAt(cfg, mass, N, rows, t, beam, j);
    var h, all := beam[j], SeqMass(cfg, mass, rows);
    var p := ProposeFree(cfg, t == 0, rows[t], h, j, n);
    var g, keyed := p.score - h.score, KeyedMass(cfg, mass, rows, h);
    var f: seq<int> -> real := s => mass(g) * keyed(s);
    ExpAdds(mass, h.score, g);
    assert h.score + g == p.score;
    SumExtensionsScale(N, [], t, mass(g), keyed, f);
    forall s: seq<int> | Below(s, N) && |s| == t ensures f(s) <= LastSum(N, all)(s) {
      assert (s == []) == (t == 0);
      SharedMass(cfg, mass, N, rows, h, j, n, s);
    }
    SumExtensionsMono(N, [], t, f, LastSum(N, all));
    SumExtensionsLast(N, [], t, all);
  }

  lemma ScoresWithin(cfg: Config, mass: real -> real, N: nat, rows: seq<seq<real>>, t: nat, beam: seq<Node>, p: Node,
                     q: Node)
    requires cfg.lexicon.None? && t < |rows| && IsExp(mass) && Carries(cfg, mass, N, rows, t, beam)
    requires AmpleMass(cfg, mass, N, rows)
    requires p in ProposeAll(cfg, t == 0, rows[t], seq(N, i => i), beam)
    requires q in ProposeAll(cfg, t == 0, rows[t], seq(N, i => i), beam)
    ensures p.score >= q.score - cfg.threshold
  {
    hide Carries, IsExp, ProposeFree, ProposeAll, FreeObjective, TotalAt, Power;
    var j, n := ProposalFrom(cfg, t == 0, rows[t], beam, p);
    var k, c := ProposalFrom(cfg, t == 0, rows[t], beam, q);
    var a := ProposalAtLeast(cfg, mass, N, rows, t, beam, j, n);
    ProposalAtMost(cfg, mass, N, rows, t, beam, k, c);
    var o := FreeObjective(cfg, rows, a);
    assert TotalAt(cfg, mass, N, rows, |a|) <= mass(o + cfg.threshold);
    ExpAdds(mass, o, cfg.threshold);
    ExpAdds(mass, p.score, cfg.threshold);
    Scaled(mass(o), mass(p.score), mass(cfg.threshold));
    ExpOrders(mass, q.score, p.score + cfg.threshold);
  }

  lemma AmpleFrame(cfg: Config, mass: real -> real, N: nat, rows: seq<seq<real>>, m: Machine, t: nat)
    requires cfg.lexicon.None? && Steps(cfg, Begin(cfg), rows, m) && t < |rows| && IsExp(mass)
    requires AmpleMass(cfg, mass, N, rows) && Carries(cfg, mass, N, rows, t, m.beams[t])
    ensures Lossless(cfg.beamSize, cfg.threshold, ProposeAll(cfg, t == 0, rows[t], seq(N, i => i), m.beams[t]))
  {
    hide Carries, IsExp, ProposeAll, FreeObjective, TotalAt, Power, StepAt;
    var proposals := ProposeAll(cfg, t == 0, rows[t], seq(N, i => i), m.beams[t]);
    BeamCount(cfg, N, rows, m, t);
    ProposalCount(cfg, t == 0, rows[t], seq(N, i => i), m.beams[t]);
    Grows(|m.beams[t]|, Power(N, t), N);
    PowerNext(N, t);
    forall i, j | 0 <= i < |proposals| && 0 <= j < |proposals|
      ensures proposals[i].score >= proposals[j].score - cfg.threshold
    {
      ScoresWithin(cfg, mass, N, rows, t, m.beams[t], proposals[i], proposals[j]);
    }
  }

  // ---- There always are such sizes

  lemma UnitSquare(x: real, y: real, z: real)
    requires z == x * y && x == y == z && x > 0.0
    ensures x == 1.0
  {
    assert x == (x * x) / x;
  }

  lemma ExpOfNone(mass: real -> real)
    requires IsExp(mass)
    ensures mass(0.0) == 1.0 && mass(1.0) > 1.0
  {
    assert mass(0.0) < mass(1.0);
    hide IsExp;
    ExpAdds(mass, 0.0, 0.0);
    assert 0.0 + 0.0 == 0.0;
    assert mass(0.0 + 0.0) == mass(0.0);
    UnitSquare(mass(0.0), mass(0.0), mass(0.0 + 0.0));
  }

  /** Mass outgrows any bound. */
  lemma {:induction false} ExpGrows(mass: real -> real, n: nat)
    requires IsExp(mass)
    ensures mass(n as real) >= 1.0 + n as real * (mass(1.0) - 1.0)
  {
    hide IsExp;
    ExpOfNone(mass);
    if n > 0 {
      ExpGrows(mass, n - 1);
      var k, d := (n - 1) as real, mass(1.0) - 1.0;
      ExpAdds(mass, k, 1.0);
      assert k + 1.0 == n as real;
      Bernoulli(mass(k), k, d);
    }
  }

  lemma Bernoulli(x: real, k: real, d: real)
    requires x >= 1.0 + k * d && k >= 0.0 && d > 0.0
    ensures x * (1.0 + d) >= 1.0 + (k + 1.0) * d
  {
    assert k * d >= 0.0;
    Scaled(1.0, x, d);
  }

  /** A number of steps of size d that pass a bound. */
  lemma StepsPast(bound: real, d: real) returns (n: nat)
    requires d > 0.0
    ensures n as real * d >= bound
  {
    var q := bound / d;
    assert q * d == bound;
    var size := if q >= 0.0 then q else -q;
    n := size.Floor + 1;
    Scaled(q, n as real, d);
  }

  lemma ExpReaches(mass: real -> real, bound: real) returns (x: real)
    requires IsExp(mass)
    ensures mass(x) >= bound
  {
    hide IsExp;
    ExpOfNone(mass);
    var n := StepsPast(bound, mass(1.0) - 1.0);
    ExpGrows(mass, n);
    x := n as real;
  }

  /** A threshold that lifts every label sequence far enough. */
  lemma ThresholdExists(cfg: Config, mass: real -> real, N: nat, rows: seq<seq<real>>) returns (threshold: real)
    requires IsExp(mass)
    ensures forall a :: |a| <= |rows| && Below(a, N) ==>
      TotalAt(cfg, mass, N, rows, |a|) <= mass(FreeObjective(cfg, rows, a) + threshold)
  {
    hide IsExp, FreeObjective, TotalAt, Ratio;
    var f: seq<int> -> real := a => Ratio(TotalAt(cfg, mass, N, rows, |a|), mass(FreeObjective(cfg, rows, a)));
    var b := BoundedUpTo(f, N, |rows|);
    threshold := ExpReaches(mass, b);
    forall a: seq<int> | |a| <= |rows| && Below(a, N)
      ensures TotalAt(cfg, mass, N, rows, |a|) <= mass(FreeObjective(cfg, rows, a) + threshold)
    {
      assert Within(f(a), b);
      Lifted(mass, TotalAt(cfg, mass, N, rows, |a|), FreeObjective(cfg, rows, a), b, threshold);
    }
  }

  lemma Lifted(mass: real -> real, total: real, o: real, b: real, threshold: real)
    requires IsExp(mass) && Ratio(total, mass(o)) <= b <= mass(threshold)
    ensures total <= mass(o + threshold)
  {
    hide IsExp, Ratio;
    ExpAdds(mass, o, threshold);
    RatioWithin(total, mass(o), b);
    Scaled(b, mass(threshold), mass(o));
  }

  /** For any decoder, frames and mass, some sizes are large enough. */
  lemma AmpleMassExists(cfg: Config, mass: real -> real, N: nat, rows: seq<seq<real>>) returns (wide: Config)
    requires IsExp(mass) && forall t :: 0 <= t < |rows| ==> |rows[t]| == N
    ensures wide == Widened(cfg, wide.beamSize, wide.beamSizeToken, wide.threshold)
    ensures AmpleMass(wide, mass, N, rows)
  {
    hide IsExp, FreeObjective, TotalAt, Power;
    var threshold := ThresholdExists(cfg, mass, N, rows);
    var K := PowersWithin(N, |rows|);
    wide := Widened(cfg, K, N, threshold);
    forall a: seq<int> | |a| <= |rows| && Below(a, N)
      ensures TotalAt(wide, mass, N, rows, |a|) <= mass(FreeObjective(wide, rows, a) + threshold)
    {
      WideLifts(cfg, mass, K, N, threshold, rows, a);
    }
  }

  lemma WideLifts(cfg: Config, mass: real -> real, K: nat, N: nat, threshold: real, rows: seq<seq<real>>, a: seq<int>)
    requires TotalAt(cfg, mass, N, rows, |a|) <= mass(FreeObjective(cfg, rows, a) + threshold)
    ensures var wide := Widened(cfg, K, N, threshold);
      TotalAt(wide, mass, N, rows, |a|) <= mass(FreeObjective(wide, rows, a) + threshold)
  {
    hide FreeObjective, TotalAt, Widened;
    SameObjective(cfg, K, N, threshold, rows, a);
    SameTotal(cfg, mass, K, N, threshold, rows, |a|);
  }

  function Ratio(a: real, b: real): real {
    if b == 0.0 then 0.0 else a / b
  }

  lemma RatioWithin(a: real, b: real, bound: real)
    requires b > 0.0 && Ratio(a, b) <= bound
    ensures a <= bound * b
  {
    assert a == (a / b) * b;
    Scaled(a / b, bound, b);
  }

  lemma SameTotal(cfg: Config, mass: real -> real, K: nat, N: nat, threshold: real, rows: seq<seq<real>>, t: nat)
    ensures TotalAt(Widened(cfg, K, N, threshold), mass, N, rows, t) == TotalAt(cfg, mass, N, rows, t)
  {
    hide FreeObjective, SumExtensions, Widened;
    var wide := Widened(cfg, K, N, threshold);
    forall s: seq<int> ensures SeqMass(wide, mass, rows)(s) == SeqMass(cfg, mass, rows)(s) {
      SameObjective(cfg, K, N, threshold, rows, s);
    }
    SumExtensionsExt(N, [], t, SeqMass(wide, mass, rows), SeqMass(cfg, mass, rows));
  }

  // ---- Whole runs

  /** With log-add and such sizes, in every frame of every decoding each state is held once,
      with exactly the mass of all the label sequences that lead to it. */
  lemma {:induction false} FreeCarries(cfg: Config, add: (real, real) -> real, mass: real -> real, N: nat,
                                       rows: seq<seq<real>>, m: Machine, t: nat)
    requires cfg.lexicon.None? && cfg.merge == LogAdd(add) && IsMass(add, mass) && IsExp(mass)
    requires Steps(cfg, Begin(cfg), rows, m) && AmpleMass(cfg, mass, N, rows) && t <= |rows|
    ensures Carries(cfg, mass, N, rows, t, m.beams[t])
  {
    hide Carries, IsExp, IsMass, ProposeAll, FreeObjective, TotalAt, Power, FrameStep, Stored, Lossless;
    if t == 0 {
      assert m.beams[0] == m.beams[..1][0] == Begin(cfg).beams[0];
      StartCarries(cfg, mass, N, rows);
    } else {
      var u := t - 1;
      FreeCarries(cfg, add, mass, N, rows, m, u);
      AmpleFrame(cfg, mass, N, rows, m, u);
      assert StepAt(cfg, Begin(cfg), rows, m.beams, u);
      FrameOfAll(cfg, N, u == 0, rows[u], m.beams[u], m.beams[t]);
      NextCarries(cfg, add, mass, N, rows, u, m.beams[u], m.beams[t]);
    }
  }

  lemma {:induction false} MassIsSum(w: Node -> real, s: seq<Node>, f: int -> real)
    requires forall i :: 0 <= i < |s| ==> f(i) == w(s[i])
    ensures TotalMass(w, s) == Sum(|s|, f)
  {
    if s != [] { MassIsSum(w, s[..|s| - 1], f); }
  }

  lemma KeyedIs(cfg: Config, mass: real -> real, rows: seq<seq<real>>, x: Node, s: seq<int>)
    ensures KeyedMass(cfg, mass, rows, x)(s) == if StandsAt(cfg, s, x) then SeqMass(cfg, mass, rows)(s) else 0.0
  {
  }

  lemma CarriesAll(cfg: Config, mass: real -> real, N: nat, rows: seq<seq<real>>, t: nat, beam: seq<Node>)
    requires Carries(cfg, mass, N, rows, t, beam)
    ensures TotalMass(ByScore(mass), beam) == TotalAt(cfg, mass, N, rows, t)
  {
    hide Carries, StandsAt, FreeObjective, TotalMass, SumExtensions, Sum, KeyedMass, SeqMass;
    var F: (int, seq<int>) -> real := (j, s) =>
      if 0 <= j < |beam| then KeyedMass(cfg, mass, rows, beam[j])(s) else 0.0;
    var parts: int -> real := j => if 0 <= j < |beam| then mass(beam[j].score) else 0.0;
    MassIsSum(ByScore(mass), beam, parts);
    forall j | 0 <= j < |beam| ensures parts(j) == SumSequences(N, t, Row(F, j)) {
      MassAt(cfg, mass, N, rows, t, beam, j);
      SumExtensionsExt(N, [], t, KeyedMass(cfg, mass, rows, beam[j]), Row(F, j));
    }
    SumExtensionsCases(|beam|, N, t, F, parts);
    var all := SeqMass(cfg, mass, rows);
    forall s: seq<int> | Below(s, N) && |s| == t ensures ColumnSum(|beam|, F)(s) == all(s) {
      var j := LeadsTo(cfg, mass, N, rows, t, beam, s);
      var f: int -> real := i => F(i, s);
      forall i | 0 <= i < |beam| && i != j ensures f(i) == 0.0 { KeyedIs(cfg, mass, rows, beam[i], s); }
      KeyedIs(cfg, mass, rows, beam[j], s);
      SumPick(|beam|, j, f);
      SumExt(|beam|, f, i => F(i, s));
    }
    SumExtensionsExt(N, [], t, ColumnSum(|beam|, F), all);
  }

  /** So the whole beam carries the mass of all N^t label sequences. */
  lemma FreeTotal(cfg: Config, add: (real, real) -> real, mass: real -> real, N: nat, rows: seq<seq<real>>, m: Machine,
                  t: nat)
    requires cfg.lexicon.None? && cfg.merge == LogAdd(add) && IsMass(add, mass) && IsExp(mass)
    requires Steps(cfg, Begin(cfg), rows, m) && AmpleMass(cfg, mass, N, rows) && t <= |rows|
    ensures TotalMass(ByScore(mass), m.beams[t]) == SumSequences(N, t, SeqMass(cfg, mass, rows))
  {
    hide Carries, IsExp, IsMass, StepAt, AmpleMass, TotalMass, SumSequences;
    FreeCarries(cfg, add, mass, N, rows, m, t);
    CarriesAll(cfg, mass, N, rows, t, m.beams[t]);
  }
}
