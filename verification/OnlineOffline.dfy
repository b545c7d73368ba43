/** Decoding in chunks with pruning in between finds what decoding all frames at
    once finds, up to one offset per frame; sort ties may fall either way, so the
    statement is a simulation in both directions. */
module OnlineOffline {
  import opened Candidates
  import opened BeamStore
  import opened Decoder
  import opened Beams
  import opened History
  import opened Online

  // ---- Chunks

  lemma StepsCompose(cfg: Config, m: Machine, rows: seq<seq<real>>, mid: Machine, more: seq<seq<real>>, m': Machine)
    requires Steps(cfg, m, rows, mid) && Steps(cfg, mid, more, m')
    ensures Steps(cfg, m, rows + more, m')
  {
    hide FrameStep;
    assert m'.beams[..|m.beams|] == m'.beams[..|mid.beams|][..|m.beams|];
    forall t | 0 <= t < |rows + more| ensures StepAt(cfg, m, rows + more, m'.beams, t) {
      if t < |rows| {
        assert StepAt(cfg, m, rows, mid.beams, t);
        assert forall k :: 0 <= k < |mid.beams| ==> m'.beams[k] == m'.beams[..|mid.beams|][k];
      } else {
        assert StepAt(cfg, mid, more, m'.beams, t - |rows|);
      }
    }
  }

  /** Two chunks are one chunk: a run over rows + more passes through a run over rows. */
  lemma StepsSplit(cfg: Config, m: Machine, rows: seq<seq<real>>, more: seq<seq<real>>, m': Machine)
    returns (mid: Machine)
    requires Steps(cfg, m, rows + more, m')
    ensures Steps(cfg, m, rows, mid) && Steps(cfg, mid, more, m')
  {
    hide FrameStep;
    var n := |m.beams| + |rows|;
    mid := Machine(m'.beams[..n], m.decoded + |rows|, m.pruned);
    assert mid.beams[..|m.beams|] == m'.beams[..|m.beams|];
    forall t | 0 <= t < |rows| ensures StepAt(cfg, m, rows, mid.beams, t) {
      assert StepAt(cfg, m, rows + more, m'.beams, t);
    }
    forall t | 0 <= t < |more| ensures StepAt(cfg, mid, more, m'.beams, t) {
      assert StepAt(cfg, m, rows + more, m'.beams, |rows| + t);
    }
  }

  // ---- The simulation

  predicate SameParents(a: seq<Node>, b: seq<Node>) {
    |a| == |b| && forall i :: 0 <= i < |a| ==> a[i].parent == b[i].parent
  }

  ghost predicate AlikeUpTo(a: seq<Node>, b: seq<Node>) {
    exists c: real :: Alike(a, b, c)
  }

  /** m holds the frames of o from m.pruned on, each up to an offset of its own. */
  ghost predicate Matches(o: Machine, m: Machine) {
    && Sound(o) && Sound(m) && o.pruned == 0 && o.decoded == m.decoded
    && (forall k :: 0 <= k < |m.beams| ==> AlikeUpTo(o.beams[m.pruned + k], m.beams[k]))
    && (forall k :: 1 <= k < |m.beams| ==> SameParents(o.beams[m.pruned + k], m.beams[k]))
  }

  /** The last beam and the n before it, those fed since the last prune, share one offset. */
  ghost predicate Shares(o: Machine, m: Machine, n: nat, c: real) {
    && Matches(o, m) && n < |m.beams|
    && forall k :: |m.beams| - 1 - n <= k < |m.beams| ==> Alike(o.beams[m.pruned + k], m.beams[k], c)
  }

  lemma AlikeBack(a: seq<Node>, b: seq<Node>, c: real)
    requires Alike(a, b, c)
    ensures Alike(b, a, -c)
  {
    forall i | 0 <= i < |b| ensures a[i] == Moved(b[i], -c, a[i].parent) {
      assert b[i] == Moved(a[i], c, b[i].parent);
    }
  }

  lemma AlikeTrans(x: seq<Node>, y: seq<Node>, z: seq<Node>, c: real, d: real)
    requires Alike(x, y, c) && Alike(y, z, d)
    ensures Alike(x, z, c + d)
  {
    forall i | 0 <= i < |x| ensures z[i] == Moved(x[i], c + d, z[i].parent) {
      assert y[i] == Moved(x[i], c, y[i].parent);
    }
  }

  lemma ShiftAlike(a: seq<Node>, c: real)
    ensures Alike(a, Shift(a, c), c) && SameParents(a, Shift(a, c))
  {
  }

  function Last(m: Machine): seq<Node>
    requires m.beams != []
  {
    m.beams[|m.beams| - 1]
  }

  /** What y does when it does what x did to reach x', from a beam that is c above. */
  ghost function Copied(x: Machine, y: Machine, n: nat, x': Machine, c: real): Machine
    requires |x'.beams| == |x.beams| + n
  {
    Machine(y.beams + seq(n, t requires 0 <= t < n => Shift(x'.beams[|x.beams| + t], c)), y.decoded + n, y.pruned)
  }

  lemma CopiedAt(x: Machine, y: Machine, n: nat, x': Machine, c: real, t: nat)
    requires |x'.beams| == |x.beams| + n && t < n
    ensures |Copied(x, y, n, x', c).beams| == |y.beams| + n
    ensures Copied(x, y, n, x', c).beams[|y.beams| + t] == Shift(x'.beams[|x.beams| + t], c)
  {
    hide Shift;
  }

  lemma CopySteps(cfg: Config, x: Machine, y: Machine, rows: seq<seq<real>>, x': Machine, c: real)
    requires Uniform(cfg.merge) && Steps(cfg, x, rows, x') && y.beams != [] && y.decoded == x.decoded
    requires Alike(Last(x), Last(y), c)
    ensures Steps(cfg, y, rows, Copied(x, y, |rows|, x', c))
  {
    hide FrameStep, Uniform, Alike, Shift;
    var y' := Copied(x, y, |rows|, x', c);
    forall t | 0 <= t < |rows| ensures StepAt(cfg, y, rows, y'.beams, t) {
      var k, k' := |x.beams| + t, |y.beams| + t;
      assert StepAt(cfg, x, rows, x'.beams, t);
      assert y'.beams[k'] == Shift(x'.beams[k], c);
      if t == 0 {
        assert x'.beams[k - 1] == x'.beams[..|x.beams|][k - 1];
      } else {
        assert y'.beams[k' - 1] == Shift(x'.beams[k - 1], c);
        ShiftAlike(x'.beams[k - 1], c);
      }
      FrameShift(cfg, x.decoded + t == 0, rows[t], x'.beams[k - 1], x'.beams[k], y'.beams[k' - 1], c);
    }
  }

  /** New frames that are copies match. */
  lemma ExtendMatches(o: Machine, m: Machine, o': Machine, m': Machine, c: real)
    requires Matches(o, m) && Sound(o') && Sound(m') && o'.pruned == 0 && o'.decoded == m'.decoded
    requires m'.pruned == m.pruned
    requires |m'.beams| >= |m.beams| && o'.beams[..|o.beams|] == o.beams && m'.beams[..|m.beams|] == m.beams
    requires forall k :: |m.beams| <= k < |m'.beams| ==>
      Alike(o'.beams[m.pruned + k], m'.beams[k], c) && SameParents(o'.beams[m.pruned + k], m'.beams[k])
    ensures Matches(o', m')
  {
    hide Alike, SameParents, Chained;
    forall k | 0 <= k < |m.beams|
      ensures AlikeUpTo(o'.beams[m'.pruned + k], m'.beams[k])
      ensures k > 0 ==> SameParents(o'.beams[m'.pruned + k], m'.beams[k])
    {
      assert o'.beams[m.pruned + k] == o'.beams[..|o.beams|][m.pruned + k] && m'.beams[k] == m'.beams[..|m.beams|][k];
    }
  }

  /** The shared offset carries over to the new frames. */
  lemma ExtendShares(o: Machine, m: Machine, o': Machine, m': Machine, n: nat, c: real)
    requires Shares(o, m, n, c) && Sound(o') && Sound(m') && o'.pruned == 0 && o'.decoded == m'.decoded
    requires m'.pruned == m.pruned && |m'.beams| >= |m.beams|
    requires o'.beams[..|o.beams|] == o.beams && m'.beams[..|m.beams|] == m.beams
    requires forall k :: |m.beams| <= k < |m'.beams| ==>
      Alike(o'.beams[m.pruned + k], m'.beams[k], c) && SameParents(o'.beams[m.pruned + k], m'.beams[k])
    ensures Shares(o', m', n + |m'.beams| - |m.beams|, c)
  {
    hide Alike, SameParents, Chained, AlikeUpTo;
    ExtendMatches(o, m, o', m', c);
    forall k | |m.beams| - 1 - n <= k < |m.beams| ensures Alike(o'.beams[m'.pruned + k], m'.beams[k], c) {
      assert o'.beams[m.pruned + k] == o'.beams[..|o.beams|][m.pruned + k] && m'.beams[k] == m'.beams[..|m.beams|][k];
      assert Alike(o.beams[m.pruned + k], m.beams[k], c);
    }
  }

  lemma LastShared(o: Machine, m: Machine, n: nat, c: real)
    requires Shares(o, m, n, c)
    ensures o.beams != [] && m.beams != [] && Alike(Last(o), Last(m), c)
  {
    hide Alike, Chained;
    var k := |m.beams| - 1;
    assert Alike(o.beams[m.pruned + k], m.beams[k], c);
  }

  lemma FeedForth(cfg: Config, o: Machine, m: Machine, rows: seq<seq<real>>, m': Machine, n: nat, c: real)
    returns (o': Machine)
    requires Uniform(cfg.merge) && Shares(o, m, n, c) && Steps(cfg, m, rows, m')
    ensures Steps(cfg, o, rows, o') && Shares(o', m', n + |rows|, c)
  {
    hide Alike, SameParents, Chained, Shift, Uniform, StepAt, AlikeUpTo;
    LastShared(o, m, n, c);
    AlikeBack(Last(o), Last(m), c);
    CopySteps(cfg, m, o, rows, m', -c);
    o' := Copied(m, o, |rows|, m', -c);
    StepsSound(cfg, o, rows, o');
    StepsSound(cfg, m, rows, m');
    forall k | |m.beams| <= k < |m'.beams|
      ensures Alike(o'.beams[m.pruned + k], m'.beams[k], c) && SameParents(o'.beams[m.pruned + k], m'.beams[k])
    {
      var t := k - |m.beams|;
      CopiedAt(m, o, |rows|, m', -c, t);
      assert m.pruned + k == |o.beams| + t && k == |m.beams| + t;
      ShiftAlike(m'.beams[k], -c);
      AlikeBack(m'.beams[k], o'.beams[m.pruned + k], -c);
      ParentsBack(m'.beams[k], o'.beams[m.pruned + k]);
    }
    ExtendShares(o, m, o', m', n, c);
  }

  lemma ParentsBack(a: seq<Node>, b: seq<Node>)
    requires SameParents(a, b)
    ensures SameParents(b, a)
  {
  }

  lemma FeedBack(cfg: Config, o: Machine, m: Machine, rows: seq<seq<real>>, o': Machine, n: nat, c: real)
    returns (m': Machine)
    requires Uniform(cfg.merge) && Shares(o, m, n, c) && Steps(cfg, o, rows, o')
    ensures Steps(cfg, m, rows, m') && Shares(o', m', n + |rows|, c)
  {
    hide Alike, SameParents, Chained, Shift, Uniform, StepAt, AlikeUpTo;
    LastShared(o, m, n, c);
    CopySteps(cfg, o, m, rows, o', c);
    m' := Copied(o, m, |rows|, o', c);
    StepsSound(cfg, o, rows, o');
    StepsSound(cfg, m, rows, m');
    forall k | |m.beams| <= k < |m'.beams|
      ensures Alike(o'.beams[m.pruned + k], m'.beams[k], c) && SameParents(o'.beams[m.pruned + k], m'.beams[k])
    {
      assert m'.beams[k] == Shift(o'.beams[m.pruned + k], c);
      ShiftAlike(o'.beams[m.pruned + k], c);
    }
    ExtendShares(o, m, o', m', n, c);
  }

  /** Pruning drops frames and offsets the last one, no more. */
  lemma PruneMatches(cfg: Config, o: Machine, m: Machine, lookBack: int, m': Machine)
    requires Matches(o, m) && Prunes(cfg, m, lookBack, m')
    ensures Matches(o, m')
  {
    hide Matches, Dropped, LookBack;
    assert Sound(m) by { MatchesSound(o, m); }
    PrunesSound(cfg, m, lookBack, m');
    var k := |m.beams| - 1;
    if m' != m {
      var b :| IsFirstBest(m.beams[k], b) && PrunesFrom(cfg, m, lookBack, b, m');
      DropMatches(o, m, k - LookBack(cfg, m.beams, b, lookBack), m.beams[k][b].score, m');
    }
  }

  /** A prune that changes anything starts a new offset, with the last frame. */
  lemma PruneShares(cfg: Config, o: Machine, m: Machine, lookBack: int, m': Machine, n: nat, c: real) returns (d: real)
    requires Shares(o, m, n, c) && Prunes(cfg, m, lookBack, m')
    ensures if m' == m then d == c else m'.pruned > m.pruned && Shares(o, m', 0, d)
  {
    hide Alike, SameParents, Chained, Dropped, LookBack;
    PruneMatches(cfg, o, m, lookBack, m');
    d := c;
    if m' != m {
      var k := |m'.beams| - 1;
      assert AlikeUpTo(o.beams[m'.pruned + k], m'.beams[k]);
      d :| Alike(o.beams[m'.pruned + k], m'.beams[k], d);
    }
  }

  lemma MatchesSound(o: Machine, m: Machine)
    requires Matches(o, m)
    ensures Sound(m)
  {
  }

  lemma DropMatches(o: Machine, m: Machine, start: int, best: real, m': Machine)
    requires Matches(o, m) && Sound(m') && 0 <= start < |m.beams|
    requires m' == Machine(Dropped(m.beams, start, best), m.decoded, m.pruned + start)
    ensures Matches(o, m')
  {
    hide AlikeUpTo, SameParents, Chained, Dropped;
    forall j | 0 <= j < |m'.beams|
      ensures AlikeUpTo(o.beams[m'.pruned + j], m'.beams[j])
      ensures j > 0 ==> SameParents(o.beams[m'.pruned + j], m'.beams[j])
    {
      var k := start + j;
      assert AlikeUpTo(o.beams[m.pruned + k], m.beams[k]);
      DroppedAlike(m.beams, start, best, j);
      DroppedMatches(o.beams[m'.pruned + j], m.beams[k], m'.beams[j], j);
    }
  }

  lemma DroppedMatches(x: seq<Node>, y: seq<Node>, z: seq<Node>, j: int)
    requires AlikeUpTo(x, y) && AlikeUpTo(y, z) && (j > 0 ==> SameParents(x, y) && SameParents(y, z))
    ensures AlikeUpTo(x, z) && (j > 0 ==> SameParents(x, z))
  {
    hide Alike;
    var c :| Alike(x, y, c);
    var d :| Alike(y, z, d);
    AlikeTrans(x, y, z, c, d);
  }

  lemma DroppedAlike(beams: seq<seq<Node>>, start: int, best: real, j: int)
    requires 0 <= start < |beams| && 0 <= j < |beams| - start
    ensures AlikeUpTo(beams[start + j], Dropped(beams, start, best)[j])
    ensures j > 0 ==> SameParents(beams[start + j], Dropped(beams, start, best)[j])
  {
    var c := if start + j == |beams| - 1 then -best else 0.0;
    assert Alike(beams[start + j], Dropped(beams, start, best)[j], c);
  }

  lemma {:induction false} FirstBestExists(beam: seq<Node>) returns (b: int)
    requires beam != []
    ensures IsFirstBest(beam, b)
  {
    var n := |beam| - 1;
    b := n;
    if n > 0 {
      b := FirstBestExists(beam[..n]);
      if beam[n].score > beam[b].score { b := n; }
    }
  }

  lemma PruneExists(cfg: Config, m: Machine, lookBack: int) returns (m': Machine)
    requires Sound(m)
    ensures Prunes(cfg, m, lookBack, m')
  {
    hide Dropped, LookBack;
    m' := m;
    var k := |m.beams| - 1;
    if k - lookBack >= 1 && m.beams[k] != [] {
      var b := FirstBestExists(m.beams[k]);
      var n := LookBack(cfg, m.beams, b, lookBack);
      if k - n >= 1 { m' := Machine(Dropped(m.beams, k - n, m.beams[k][b].score), m.decoded, m.decoded - n); }
      assert PrunesFrom(cfg, m, lookBack, b, m');
    }
  }
}
