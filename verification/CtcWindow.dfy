/** Which CTC states can be reached from the start by a frame, and which can
    still reach the end: the window [start, end) that the passes walk. */
module CtcWindow {
  import opened Sums
  import opened Trellises
  import opened Scores
  import opened Ctc

  /** Adjacent equal labels among the first len. */
  function Repeats(labels: seq<int>, len: int): nat
    requires len <= |labels|
    decreases len
  {
    if len <= 1 then 0 else Repeats(labels, len - 1) + (if labels[len - 1] == labels[len - 2] then 1 else 0)
  }

  /** The first frame that can be in state s. */
  function Arrive(target: seq<int>, s: int): int
    requires 0 <= s <= 2 * |target|
  {
    s / 2 + Repeats(target, (s + 1) / 2)
  }

  /** The number of frames still needed after a frame in state s. */
  function Remain(target: seq<int>, s: int): int
    requires 0 <= s <= 2 * |target|
  {
    if s == 2 * |target| then 0
    else |target| - (s + 1) / 2 + Repeats(target, |target|) - Repeats(target, s / 2 + 1)
  }

  predicate InWindow(target: seq<int>, T: nat, t: int, s: int) {
    0 <= s <= 2 * |target| && Arrive(target, s) <= t && Remain(target, s) <= T - 1 - t
  }

  /** The least state the window holds, and one past the greatest. */
  ghost predicate IsStart(target: seq<int>, T: nat, t: int, start: int) {
    && 0 <= start <= 2 * |target|
    && (forall s :: 0 <= s < start ==> Remain(target, s) > T - 1 - t)
    && (forall s :: start <= s <= 2 * |target| ==> Remain(target, s) <= T - 1 - t)
  }

  ghost predicate IsEnd(target: seq<int>, t: int, end: int) {
    && 1 <= end <= 2 * |target| + 1
    && (forall s :: 0 <= s < end ==> Arrive(target, s) <= t)
    && (forall s :: end <= s <= 2 * |target| ==> Arrive(target, s) > t)
  }

  // ---- Arrive grows and Remain shrinks along the states, by at most one

  lemma ArriveNext(target: seq<int>, s: int)
    requires 0 <= s < 2 * |target|
    ensures s % 2 == 1 ==> Arrive(target, s + 1) == Arrive(target, s) + 1
    ensures s % 2 == 0 ==>
              Arrive(target, s + 1)
                == Arrive(target, s) + (if s > 0 && target[s / 2] == target[s / 2 - 1] then 1 else 0)
  {
  }

  lemma RemainNext(target: seq<int>, s: int)
    requires 0 <= s < 2 * |target|
    ensures s % 2 == 0 ==> Remain(target, s) == Remain(target, s + 1) + 1
    ensures s % 2 == 1 ==>
              Remain(target, s) == Remain(target, s + 1)
                                   + (if s + 2 < 2 * |target| && target[s / 2] == target[s / 2 + 1] then 1 else 0)
  {
  }

  lemma Ends(target: seq<int>)
    ensures Arrive(target, 0) == 0 && Remain(target, 2 * |target|) == 0
    ensures Arrive(target, 2 * |target|) == Remain(target, 0) == |target| + Repeats(target, |target|)
  {
    var L := |target|;
    assert (2 * L + 1) / 2 == 2 * L / 2 == L;
  }

  lemma {:induction false} ArriveMono(target: seq<int>, a: int, b: int)
    requires 0 <= a <= b <= 2 * |target|
    ensures Arrive(target, a) <= Arrive(target, b)
    decreases b
  {
    if a < b {
      ArriveNext(target, b - 1);
      ArriveMono(target, a, b - 1);
    }
  }

  lemma {:induction false} RemainMono(target: seq<int>, a: int, b: int)
    requires 0 <= a <= b <= 2 * |target|
    ensures Remain(target, a) >= Remain(target, b)
    decreases b
  {
    if a < b {
      RemainNext(target, b - 1);
      RemainMono(target, a, b - 1);
    }
  }

  lemma StartFrom(target: seq<int>, T: nat, t: int, start: int)
    requires 0 <= start <= 2 * |target| && Remain(target, start) <= T - 1 - t
    requires start > 0 ==> Remain(target, start - 1) > T - 1 - t
    ensures IsStart(target, T, t, start)
  {
    forall s | 0 <= s < start ensures Remain(target, s) > T - 1 - t { RemainMono(target, s, start - 1); }
    forall s | start <= s <= 2 * |target| ensures Remain(target, s) <= T - 1 - t { RemainMono(target, start, s); }
  }

  lemma EndFrom(target: seq<int>, t: int, end: int)
    requires 1 <= end <= 2 * |target| + 1 && Arrive(target, end - 1) <= t
    requires end <= 2 * |target| ==> Arrive(target, end) > t
    ensures IsEnd(target, t, end)
  {
    forall s | 0 <= s < end ensures Arrive(target, s) <= t { ArriveMono(target, s, end - 1); }
    forall s | end <= s <= 2 * |target| ensures Arrive(target, s) > t { ArriveMono(target, end, s); }
  }

  // ---- Edges change both by at most one

  lemma EdgeDepth(target: seq<int>, p: int, s: int)
    requires 0 <= p <= 2 * |target| && 0 <= s <= 2 * |target| && Edge(target, p, s)
    ensures Arrive(target, s) <= Arrive(target, p) + 1
    ensures Remain(target, p) <= Remain(target, s) + 1
  {
    if s > p {
      ArriveNext(target, p);
      RemainNext(target, p);
      if s == p + 2 {
        ArriveNext(target, p + 1);
        RemainNext(target, p + 1);
      }
    }
  }

  /** Every state past the start of its run has a predecessor one frame earlier... */
  lemma Predecessor(target: seq<int>, s: int) returns (p: int)
    requires 0 <= s <= 2 * |target| && Arrive(target, s) > 0
    ensures 0 <= p <= s && Edge(target, p, s) && Arrive(target, p) == Arrive(target, s) - 1
  {
    ArriveNext(target, s - 1);
    p := s - 1;
    if Arrive(target, s - 1) == Arrive(target, s) {
      ArriveNext(target, s - 2);
      p := s - 2;
    }
  }

  /** ... and every state that still needs frames has a successor that needs one less. */
  lemma Successor(target: seq<int>, s: int) returns (q: int)
    requires 0 <= s <= 2 * |target| && Remain(target, s) > 0
    ensures s <= q <= 2 * |target| && Edge(target, s, q) && Remain(target, q) == Remain(target, s) - 1
  {
    RemainNext(target, s);
    q := s + 1;
    if Remain(target, s + 1) == Remain(target, s) {
      RemainNext(target, s + 1);
      q := s + 2;
    }
  }

  // ---- The window is exactly the reachable and co-reachable states

  lemma {:induction false} AlphaOutside(w: Weights, N: nat, target: seq<int>, t: nat, s: int)
    requires 0 <= s <= 2 * |target| && Arrive(target, s) > t
    ensures Alpha(CtcTrellis(w, N, target), t, s) == 0.0
  {
    var tr := CtcTrellis(w, N, target);
    if t == 0 {
      AlphaFirst(tr, s);
    } else {
      hide Alpha, Incoming, Arrive, Sum;
      var v := t - 1;
      forall p | 0 <= p < tr.S ensures Incoming(tr, v, p, s) == 0.0 {
        IncomingEdge(w, N, target, v, p, s);
        if Edge(target, p, s) {
          EdgeDepth(target, p, s);
          AlphaOutside(w, N, target, v, p);
        }
      }
      AlphaNext(tr, v, s);
      SumZero(tr.S, p => Incoming(tr, v, p, s));
    }
  }

  lemma {:induction false} BetaOutside(w: Weights, N: nat, target: seq<int>, t: nat, s: int)
    requires t < |w| && 0 <= s <= 2 * |target| && Remain(target, s) > |w| - 1 - t
    ensures Beta(CtcTrellis(w, N, target), t, s) == 0.0
    decreases |w| - t
  {
    var tr := CtcTrellis(w, N, target);
    if t + 1 == |w| {
      BetaLast(tr, s);
      if s == 2 * |target| - 1 { RemainNext(target, s); }
    } else {
      hide Beta, Outgoing, Remain, Sum;
      forall q | 0 <= q < tr.S ensures Outgoing(tr, t, s, q) == 0.0 {
        OutgoingEdge(w, N, target, t, s, q);
        if Edge(target, s, q) {
          EdgeDepth(target, s, q);
          BetaOutside(w, N, target, t + 1, q);
        }
      }
      BetaNext(tr, t, s);
      SumZero(tr.S, q => Outgoing(tr, t, s, q));
    }
  }

  lemma StepPositive(w: Weights, N: nat, target: seq<int>, t: nat, p: int, s: int)
    requires Positive(w, N) && IsTarget(target, N) && t < |w|
    ensures Edge(target, p, s) ==> CtcTrellis(w, N, target).step(t, p, s) > 0.0
    ensures t == 0 && (s == 0 || s == 1) ==> CtcTrellis(w, N, target).init(s) > 0.0
  {
  }

  lemma {:induction false} AlphaInside(w: Weights, N: nat, target: seq<int>, t: nat, s: int)
    requires Positive(w, N) && IsTarget(target, N) && t < |w|
    requires 0 <= s <= 2 * |target| && Arrive(target, s) <= t
    ensures Alpha(CtcTrellis(w, N, target), t, s) > 0.0
  {
    var tr := CtcTrellis(w, N, target);
    if t == 0 {
      if s >= 2 { ArriveNext(target, 1); ArriveMono(target, 2, s); }
      StepPositive(w, N, target, t, s, s);
      hide CtcTrellis, Positive, Alpha;
      AlphaFirst(tr, s);
    } else {
      var p := s;
      if Arrive(target, s) == t { p := Predecessor(target, s); }
      AlphaInside(w, N, target, t - 1, p);
      StepPositive(w, N, target, t, p, s);
      TrellisNonneg(w, N, target);
      hide Alpha, Arrive, Nonneg, Positive;
      AlphaPositive(tr, t - 1, p, s);
    }
  }

  lemma {:induction false} BetaInside(w: Weights, N: nat, target: seq<int>, t: nat, s: int)
    requires Positive(w, N) && IsTarget(target, N) && t < |w|
    requires 0 <= s <= 2 * |target| && Remain(target, s) <= |w| - 1 - t
    ensures Beta(CtcTrellis(w, N, target), t, s) > 0.0
    decreases |w| - t
  {
    var tr := CtcTrellis(w, N, target);
    if t + 1 == |w| {
      BetaLast(tr, s);
      if s < 2 * |target| - 1 {
        RemainMono(target, s, 2 * |target| - 2);
        RemainNext(target, 2 * |target| - 2);
        RemainNext(target, 2 * |target| - 1);
      }
    } else {
      var q := s;
      if Remain(target, s) == |w| - 1 - t { q := Successor(target, s); }
      BetaInside(w, N, target, t + 1, q);
      StepPositive(w, N, target, t + 1, s, q);
      TrellisNonneg(w, N, target);
      hide Beta, Remain, Nonneg, Positive;
      BetaPositive(tr, t, s, q);
    }
  }

  /** For positive weights the window holds exactly the states that carry mass. */
  lemma WindowExact(w: Weights, N: nat, target: seq<int>, t: nat, s: int)
    requires Positive(w, N) && IsTarget(target, N) && t < |w| && 0 <= s <= 2 * |target|
    ensures NodeMass(CtcTrellis(w, N, target), t, s) >= 0.0
    ensures InWindow(target, |w|, t, s) <==> NodeMass(CtcTrellis(w, N, target), t, s) > 0.0
  {
    hide Alpha, Beta, Arrive, Remain;
    if Arrive(target, s) > t {
      AlphaOutside(w, N, target, t, s);
    } else if Remain(target, s) > |w| - 1 - t {
      BetaOutside(w, N, target, t, s);
    } else {
      AlphaInside(w, N, target, t, s);
      BetaInside(w, N, target, t, s);
    }
  }
}
