/** Whole runs of the online decoder. */
module OnlineRuns {
  import opened Candidates
  import opened BeamStore
  import opened Decoder
  import opened Beams
  import opened History
  import opened Online
  import opened OnlineOffline

  datatype Event = Feed(rows: seq<seq<real>>) | Prune(lookBack: int)

  ghost predicate Happens(cfg: Config, m: Machine, e: Event, m': Machine) {
    Sound(m) && match e case Feed(rows) => Steps(cfg, m, rows, m') case Prune(lookBack) => Prunes(cfg, m, lookBack, m')
  }

  /** The states of an online run, one after each event. */
  ghost predicate Run(cfg: Config, events: seq<Event>, states: seq<Machine>) {
    && |states| == |events| + 1 && states[0] == Begin(cfg)
    && forall i :: 0 <= i < |events| ==> Happens(cfg, states[i], events[i], states[i + 1])
  }

  function Rows(events: seq<Event>): seq<seq<real>> {
    if events == [] then []
    else
      var n := |events| - 1;
      Rows(events[..n]) + (match events[n] case Feed(rows) => rows case Prune(_) => [])
  }

  lemma StepsNone(cfg: Config, m: Machine)
    requires m.beams != []
    ensures Steps(cfg, m, [], m)
  {
    assert m.beams[..|m.beams|] == m.beams;
  }

  lemma BeginShares(cfg: Config)
    ensures Shares(Begin(cfg), Begin(cfg), 0, 0.0)
  {
    var beam := Begin(cfg).beams[0];
    assert Alike(beam, beam, 0.0);
  }

  /** Frames fed since the last prune that changed anything. */
  function Fed(events: seq<Event>, states: seq<Machine>): nat
    requires |states| == |events| + 1
  {
    if events == [] then 0
    else
      var n := |events| - 1;
      match events[n]
      case Feed(rows) => Fed(events[..n], states[..n + 1]) + |rows|
      case Prune(_) => if states[n + 1] == states[n] then Fed(events[..n], states[..n + 1]) else 0
  }

  /** Every state of an online run is sound, and no frame is lost count of. */
  lemma {:induction false} RunSound(cfg: Config, events: seq<Event>, states: seq<Machine>)
    requires Run(cfg, events, states)
    ensures forall i :: 0 <= i < |states| ==> Sound(states[i]) && states[i].decoded == |Rows(events[..i])|
  {
    hide Steps, Prunes, Chained;
    if events == [] {
      BeginSound(cfg);
    } else {
      var n := |events| - 1;
      RunSound(cfg, events[..n], states[..n + 1]);
      forall i | 0 <= i <= n ensures Sound(states[i]) && states[i].decoded == |Rows(events[..i])| {
        assert events[..n][..i] == events[..i];
      }
      assert Happens(cfg, states[n], events[n], states[n + 1]);
      assert events[..n + 1] == events;
      match events[n]
      case Feed(rows) =>
        StepsSound(cfg, states[n], rows, states[n + 1]);
        StepsDecoded(cfg, states[n], rows, states[n + 1]);
      case Prune(lookBack) => PrunesSound(cfg, states[n], lookBack, states[n + 1]);
    }
  }

  lemma StepsDecoded(cfg: Config, m: Machine, rows: seq<seq<real>>, m': Machine)
    requires Steps(cfg, m, rows, m')
    ensures m'.decoded == m.decoded + |rows| && m'.pruned == m.pruned
  {
  }

  /** Whatever an online run finds, decoding all its frames at once may find; the frames fed
      since the last prune differ by one offset c, and by none when nothing was pruned. */
  lemma {:induction false} OnlineIsOffline(cfg: Config, events: seq<Event>, states: seq<Machine>)
    returns (o: Machine, c: real)
    requires Uniform(cfg.merge) && Run(cfg, events, states)
    ensures Steps(cfg, Begin(cfg), Rows(events), o) && Shares(o, states[|events|], Fed(events, states), c)
    ensures states[|events|].pruned == 0 ==> c == 0.0
  {
    hide Steps, Prunes, Shares, Uniform, Sound;
    if events == [] {
      o, c := Begin(cfg), 0.0;
      StepsNone(cfg, o);
      BeginShares(cfg);
    } else {
      var n := |events| - 1;
      var m, m', fed := states[n], states[n + 1], Fed(events[..n], states[..n + 1]);
      var o0, c0 := OnlineIsOffline(cfg, events[..n], states[..n + 1]);
      assert Happens(cfg, m, events[n], m');
      match events[n]
      case Feed(rows) =>
        o := FeedForth(cfg, o0, m, rows, m', fed, c0);
        c := c0;
        StepsCompose(cfg, Begin(cfg), Rows(events[..n]), o0, rows, o);
        StepsDecoded(cfg, m, rows, m');
      case Prune(lookBack) =>
        o := o0;
        c := PruneShares(cfg, o0, m, lookBack, m', fed, c0);
        assert Rows(events) == Rows(events[..n]);
    }
  }

  /** Whatever decoding all frames at once finds, an online run over them may find. */
  lemma {:induction false} OfflineIsOnline(cfg: Config, events: seq<Event>, o: Machine)
    returns (states: seq<Machine>, c: real)
    requires Uniform(cfg.merge) && Steps(cfg, Begin(cfg), Rows(events), o)
    ensures |states| == |events| + 1 && Run(cfg, events, states)
    ensures Shares(o, states[|events|], Fed(events, states), c) && (states[|events|].pruned == 0 ==> c == 0.0)
  {
    hide Steps, Prunes, Shares, Uniform, Sound, Run, Fed;
    if events == [] {
      states, c := [Begin(cfg)], 0.0;
      RunNone(cfg, states);
      BeginShares(cfg);
      StepsNothing(cfg, Begin(cfg), o);
    } else {
      var n := |events| - 1;
      var o0, m', before, c0 := o, Begin(cfg), [], 0.0;
      match events[n] {
        case Feed(rows) =>
          o0 := StepsSplit(cfg, Begin(cfg), Rows(events[..n]), rows, o);
          before, c0 := OfflineIsOnline(cfg, events[..n], o0);
          RunSize(cfg, events[..n], before);
          m' := FeedBack(cfg, o0, before[n], rows, o, Fed(events[..n], before), c0);
          StepsDecoded(cfg, before[n], rows, m');
          c := c0;
        case Prune(lookBack) =>
          assert Rows(events) == Rows(events[..n]);
          before, c0 := OfflineIsOnline(cfg, events[..n], o);
          RunSize(cfg, events[..n], before);
          SharesSound(o, before[n], Fed(events[..n], before), c0);
          m' := PruneExists(cfg, before[n], lookBack);
          c := PruneShares(cfg, o, before[n], lookBack, m', Fed(events[..n], before), c0);
      }
      states := before + [m'];
      SharesSound(o0, before[n], Fed(events[..n], before), c0);
      RunSnoc(cfg, events, before, m');
    }
  }

  lemma RunSnoc(cfg: Config, events: seq<Event>, before: seq<Machine>, m': Machine)
    requires events != [] && Run(cfg, events[..|events| - 1], before)
    requires Happens(cfg, before[|events| - 1], events[|events| - 1], m')
    ensures Run(cfg, events, before + [m'])
    ensures Fed(events, before + [m']) == var n := |events| - 1;
      match events[n]
      case Feed(rows) => Fed(events[..n], before) + |rows|
      case Prune(_) => if m' == before[n] then Fed(events[..n], before) else 0
  {
    hide Happens;
    var n, states := |events| - 1, before + [m'];
    assert states[..n + 1] == before;
    forall i | 0 <= i < |events| ensures Happens(cfg, states[i], events[i], states[i + 1]) {
      if i < n { assert Happens(cfg, before[i], events[..n][i], before[i + 1]); }
    }
  }

  lemma RunNone(cfg: Config, states: seq<Machine>)
    requires states == [Begin(cfg)]
    ensures Run(cfg, [], states) && Fed([], states) == 0
  {
  }

  lemma RunSize(cfg: Config, events: seq<Event>, states: seq<Machine>)
    requires Run(cfg, events, states)
    ensures |states| == |events| + 1
  {
  }

  lemma SharesSound(o: Machine, m: Machine, n: nat, c: real)
    requires Shares(o, m, n, c)
    ensures Sound(m) && Matches(o, m)
  {
  }

  lemma StepsNothing(cfg: Config, m: Machine, m': Machine)
    requires Steps(cfg, m, [], m')
    ensures m' == m
  {
    assert m'.beams == m'.beams[..|m.beams|];
  }

  // ---- The end of the utterance

  lemma EndsForth(cfg: Config, o: Machine, m: Machine, m': Machine, n: nat, c: real) returns (o': Machine)
    requires Uniform(cfg.merge) && Shares(o, m, n, c) && Ends(cfg, m, m')
    ensures Ends(cfg, o, o') && Shares(o', m', n + 1, c)
  {
    hide Alike, SameParents, Chained, Shift, Uniform, FinalStep, AlikeUpTo;
    LastShared(o, m, n, c);
    AlikeBack(Last(o), Last(m), c);
    var k := |m.beams|;
    var out := Shift(m'.beams[k], -c);
    FinalShift(cfg, Last(m), m'.beams[k], Last(o), -c);
    o' := Machine(o.beams + [out], o.decoded + 1, 0);
    EndsSound(cfg, o, o');
    EndsSound(cfg, m, m');
    ShiftAlike(m'.beams[k], -c);
    AlikeBack(m'.beams[k], out, -c);
    ParentsBack(m'.beams[k], out);
    ExtendShares(o, m, o', m', n, c);
  }

  lemma EndsBack(cfg: Config, o: Machine, m: Machine, o': Machine, n: nat, c: real) returns (m': Machine)
    requires Uniform(cfg.merge) && Shares(o, m, n, c) && Ends(cfg, o, o')
    ensures Ends(cfg, m, m') && Shares(o', m', n + 1, c)
  {
    hide Alike, SameParents, Chained, Shift, Uniform, FinalStep, AlikeUpTo;
    LastShared(o, m, n, c);
    var k := |o.beams|;
    FinalShift(cfg, Last(o), o'.beams[k], Last(m), c);
    m' := Machine(m.beams + [Shift(o'.beams[k], c)], m.decoded + 1, m.pruned);
    EndsSound(cfg, o, o');
    EndsSound(cfg, m, m');
    ShiftAlike(o'.beams[k], c);
    ExtendShares(o, m, o', m', n, c);
  }

  // ---- What is read back

  lemma {:induction false} SameAncestors(o: Machine, m: Machine, k: int, i: int, j: int)
    requires Matches(o, m) && IsRef(m.beams, k, i) && 0 <= j <= k
    ensures IsRef(o.beams, m.pruned + k, i)
    ensures Ancestor(o.beams, m.pruned + k, i, m.pruned + j) == Ancestor(m.beams, k, i, j)
    decreases k
  {
    assert AlikeUpTo(o.beams[m.pruned + k], m.beams[k]);
    if j < k {
      assert SameParents(o.beams[m.pruned + k], m.beams[k]);
      assert Linked(m.beams[k], |m.beams[k - 1]|);
      SameAncestors(o, m, k - 1, m.beams[k][i].parent, j);
    }
  }

  /** A hypothesis read back online is the end of the one read back offline. */
  lemma SameHypothesis(o: Machine, m: Machine, k: int, i: int, online: DecodeResult, offline: DecodeResult)
    requires Matches(o, m) && IsRef(m.beams, k, i) && IsRef(o.beams, m.pruned + k, i)
    requires ReadBack(m.beams, k, i, online) && ReadBack(o.beams, m.pruned + k, i, offline)
    ensures online.words == offline.words[m.pruned..] && online.tokens == offline.tokens[m.pruned..]
  {
    hide Chained, Ancestor, SameParents;
    forall j | 0 <= j <= k
      ensures online.words[j] == offline.words[m.pruned + j] && online.tokens[j] == offline.tokens[m.pruned + j]
    {
      SameAncestors(o, m, k, i, j);
      assert AlikeUpTo(o.beams[m.pruned + j], m.beams[j]);
    }
  }

  /** Online and offline rank the hypotheses of a frame alike, so they agree on which are best. */
  lemma SameBest(o: Machine, m: Machine, k: int, b: int)
    requires Matches(o, m) && 0 <= k < |m.beams|
    ensures IsFirstBest(m.beams[k], b) <==> IsFirstBest(o.beams[m.pruned + k], b)
  {
    hide Chained, SameParents;
    assert AlikeUpTo(o.beams[m.pruned + k], m.beams[k]);
    var c :| Alike(o.beams[m.pruned + k], m.beams[k], c);
    AlikeScores(o.beams[m.pruned + k], m.beams[k], c);
  }

  lemma AlikeScores(a: seq<Node>, b: seq<Node>, c: real)
    requires Alike(a, b, c)
    ensures forall i :: 0 <= i < |a| ==> b[i].score == a[i].score + c
  {
  }
}
