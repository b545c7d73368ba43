/** Online decoding, in chunks and with pruning, against decoding all frames at once. */
module Online {
  import opened Candidates
  import opened BeamStore
  import opened Decoder
  import opened Beams
  import opened History

  /** The frames held, and how many frames were decoded and dropped so far. */
  datatype Machine = Machine(beams: seq<seq<Node>>, decoded: nat, pruned: nat)

  ghost predicate Sound(m: Machine) {
    Chained(m.beams) && m.pruned <= m.decoded && |m.beams| == m.decoded - m.pruned + 1
  }

  function Begin(cfg: Config): Machine {
    Machine([[Node(cfg.lm.start, 0, -1, 0.0, cfg.sil, -1, false)]], 0, 0)
  }

  // ---- The operations

  /** Each new beam follows the one before; only the very first frame has no transition. */
  ghost predicate Steps(cfg: Config, m: Machine, rows: seq<seq<real>>, m': Machine)
  {
    && m.beams != [] && m'.decoded == m.decoded + |rows| && m'.pruned == m.pruned
    && |m'.beams| == |m.beams| + |rows| && m'.beams[..|m.beams|] == m.beams
    && forall t :: 0 <= t < |rows| ==> StepAt(cfg, m, rows, m'.beams, t)
  }

  ghost predicate StepAt(cfg: Config, m: Machine, rows: seq<seq<real>>, beams: seq<seq<Node>>, t: int)
    requires m.beams != [] && 0 <= t < |rows| && |beams| == |m.beams| + |rows|
  {
    var k := |m.beams| + t;
    FrameStep(cfg, m.decoded + t == 0, rows[t], beams[k - 1], beams[k])
  }

  ghost predicate Ends(cfg: Config, m: Machine, m': Machine)
    requires m.beams != []
  {
    && m'.decoded == m.decoded + 1 && m'.pruned == m.pruned
    && |m'.beams| == |m.beams| + 1 && m'.beams[..|m.beams|] == m.beams
    && FinalStep(cfg, m.beams[|m.beams| - 1], m'.beams[|m.beams|])
  }

  function Orphaned(beam: seq<Node>): (r: seq<Node>)
    ensures |r| == |beam| && forall i :: 0 <= i < |beam| ==> r[i] == beam[i].(parent := -1)
  {
    seq(|beam|, i requires 0 <= i < |beam| => beam[i].(parent := -1))
  }

  /** The frames from start on, the first without parents, the last with its best score made 0. */
  ghost function Dropped(beams: seq<seq<Node>>, start: int, best: real): seq<seq<Node>>
    requires 0 <= start < |beams|
  {
    var kept := beams[start..][0 := Orphaned(beams[start])];
    kept[|kept| - 1 := Shift(kept[|kept| - 1], -best)]
  }

  ghost predicate Prunes(cfg: Config, m: Machine, lookBack: int, m': Machine)
    requires Sound(m)
  {
    var k := |m.beams| - 1;
    if k - lookBack < 1 || m.beams[k] == [] then m' == m
    else exists b :: IsFirstBest(m.beams[k], b) && PrunesFrom(cfg, m, lookBack, b, m')
  }

  ghost predicate PrunesFrom(cfg: Config, m: Machine, lookBack: int, b: int, m': Machine)
    requires Sound(m) && IsRef(m.beams, |m.beams| - 1, b)
  {
    var k := |m.beams| - 1;
    var n := LookBack(cfg, m.beams, b, lookBack);
    if k - n < 1 then m' == m
    else m' == Machine(Dropped(m.beams, k - n, m.beams[k][b].score), m.decoded, m.decoded - n)
  }

  // ---- What every operation keeps

  lemma BeginSound(cfg: Config)
    ensures Sound(Begin(cfg))
  {
  }

  lemma StepsSound(cfg: Config, m: Machine, rows: seq<seq<real>>, m': Machine)
    requires Sound(m) && Steps(cfg, m, rows, m')
    ensures Sound(m')
  {
    hide FrameStep, Linked;
    forall k | 1 <= k < |m'.beams| ensures Linked(m'.beams[k], |m'.beams[k - 1]|) {
      if k < |m.beams| {
        assert m'.beams[k] == m'.beams[..|m.beams|][k] && m'.beams[k - 1] == m'.beams[..|m.beams|][k - 1];
      } else {
        var t := k - |m.beams|;
        assert StepAt(cfg, m, rows, m'.beams, t);
        FrameLinked(cfg, m.decoded + t == 0, rows[t], m'.beams[k - 1], m'.beams[k]);
      }
    }
    assert m'.beams[0] == m'.beams[..|m.beams|][0];
  }

  lemma EndsSound(cfg: Config, m: Machine, m': Machine)
    requires Sound(m) && Ends(cfg, m, m')
    ensures Sound(m')
  {
    hide FinalStep, Linked;
    var n := |m.beams|;
    FinalLinked(cfg, m.beams[n - 1], m'.beams[n]);
    assert forall k :: 0 <= k < n ==> m'.beams[k] == m'.beams[..n][k];
  }

  lemma DroppedChained(beams: seq<seq<Node>>, start: int, best: real)
    requires Chained(beams) && 0 <= start < |beams|
    ensures Chained(Dropped(beams, start, best)) && |Dropped(beams, start, best)| == |beams| - start
  {
    var d := Dropped(beams, start, best);
    forall k | 1 <= k < |d| ensures Linked(d[k], |d[k - 1]|) {
      assert Linked(beams[start + k], |beams[start + k - 1]|);
    }
  }

  lemma PrunesSound(cfg: Config, m: Machine, lookBack: int, m': Machine)
    requires Sound(m) && Prunes(cfg, m, lookBack, m')
    ensures Sound(m') && m'.decoded == m.decoded && m'.pruned >= m.pruned
  {
    hide Chained, Dropped;
    var k := |m.beams| - 1;
    if m' != m {
      var b :| IsFirstBest(m.beams[k], b) && PrunesFrom(cfg, m, lookBack, b, m');
      DroppedChained(m.beams, k - LookBack(cfg, m.beams, b, lookBack), m.beams[k][b].score);
    }
  }
}
