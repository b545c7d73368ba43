/** The force-alignment criterion on CPU: the forward pass over the band of
    positions that can still matter, and its backward pass. The workspace is
    never cleared, so entries outside the band hold anything. */
module ForceAlignment {
  import opened Sums
  import opened Trellises
  import opened Scores
  import opened Asg
  import opened AsgLoss

  /** Positions reachable from the first and able to reach the last. */
  predicate InBand(L: nat, T: nat, t: int, i: int) {
    0 <= i < L && i <= t && L - 1 - i <= T - 1 - t
  }

  lemma {:induction false} FacAlphaOutside(w: Weights, trans: Weights, target: seq<int>, t: nat, i: int)
    requires i > t
    ensures Alpha(FacTrellis(w, trans, target), t, i) == 0.0
  {
    hide Alpha, Sum, Move;
    var tr := FacTrellis(w, trans, target);
    if t == 0 {
      AlphaFirst(tr, i);
    } else {
      var v := t - 1;
      forall p | 0 <= p < |target| ensures Incoming(tr, v, p, i) == 0.0 {
        if i == p || i == p + 1 { FacAlphaOutside(w, trans, target, v, p); }
      }
      AlphaNext(tr, v, i);
      SumZero(|target|, p => Incoming(tr, v, p, i));
    }
  }

  lemma FacAlphaStep(w: Weights, trans: Weights, target: seq<int>, t: nat, i: int)
    requires 0 <= i < |target|
    ensures var tr := FacTrellis(w, trans, target);
            Alpha(tr, t + 1, i) == Incoming(tr, t, i, i) + (if i >= 1 then Incoming(tr, t, i - 1, i) else 0.0)
  {
    hide Alpha, Sum, Move;
    var tr := FacTrellis(w, trans, target);
    AlphaNext(tr, t, i);
    SumThree(|target|, p => Incoming(tr, t, p, i), i - 2);
  }

  /** Transition weights along the target, as the two buffers hold them. */
  function StayWeight(trans: Weights, target: seq<int>, i: int): real {
    At(trans, LabelAt(target, i), LabelAt(target, i))
  }

  function MoveWeight(trans: Weights, target: seq<int>, i: int): real {
    At(trans, LabelAt(target, i), LabelAt(target, i - 1))
  }

  lemma FacIncoming(w: Weights, trans: Weights, target: seq<int>, t: nat, i: int)
    ensures var tr, x := FacTrellis(w, trans, target), At(w, t + 1, LabelAt(target, i));
            && Incoming(tr, t, i, i) == Alpha(tr, t, i) * StayWeight(trans, target, i) * x
            && Incoming(tr, t, i - 1, i) == Alpha(tr, t, i - 1) * MoveWeight(trans, target, i) * x
  {
    hide Alpha, At, LabelAt;
    var tr, x := FacTrellis(w, trans, target), At(w, t + 1, LabelAt(target, i));
    MulAssoc(Alpha(tr, t, i), StayWeight(trans, target, i), x);
    MulAssoc(Alpha(tr, t, i - 1), MoveWeight(trans, target, i), x);
  }

  /** The log-sum-exp of two scores, from the larger one. */
  method LogSumExp(s1: real, s2: real) returns (lse: real)
    requires s1 > 0.0 && s2 > 0.0
    ensures lse == s1 + s2
  {
    if s1 < s2 {
      lse := s2 * (1.0 + s1 / s2);
    } else {
      lse := s1 * (1.0 + s2 / s1);
    }
  }

  /** One forward step, in the three forms the pass uses. */
  lemma FacValue(w: Weights, trans: Weights, target: seq<int>, t: nat, i: int)
    requires 0 <= i < |target|
    ensures var tr, x := FacTrellis(w, trans, target), At(w, t + 1, LabelAt(target, i));
            var stay, move := Alpha(tr, t, i) * StayWeight(trans, target, i),
              Alpha(tr, t, i - 1) * MoveWeight(trans, target, i);
            Alpha(tr, t + 1, i) == if i == 0 then stay * x else if i == t + 1 then move * x else (stay + move) * x
  {
    hide Alpha, At, LabelAt, FacTrellis, StayWeight, MoveWeight, Incoming;
    FacAlphaStep(w, trans, target, t, i);
    FacIncoming(w, trans, target, t, i);
    if i == t + 1 { FacAlphaOutside(w, trans, target, t, i); }
  }

  lemma {:induction false} FacAlphaInside(w: Weights, trans: Weights, N: nat, target: seq<int>, t: nat, i: int)
    requires IsModel(w, trans, N) && IsTarget(target, N) && t < |w| && 0 <= i < |target| && i <= t
    ensures Alpha(FacTrellis(w, trans, target), t, i) > 0.0
  {
    var tr := FacTrellis(w, trans, target);
    if t == 0 {
      FirstAlpha(w, trans, N, target);
    } else {
      hide Alpha, Nonneg, IsModel;
      var p := if i == t then i - 1 else i;
      FacAlphaInside(w, trans, N, target, t - 1, p);
      FacNonneg(w, trans, N, target);
      FacStepPositive(w, trans, N, target, t, p, i);
      AlphaPositive(tr, t - 1, p, i);
    }
  }

  lemma FacStepPositive(w: Weights, trans: Weights, N: nat, target: seq<int>, t: nat, p: int, i: int)
    requires IsModel(w, trans, N) && IsTarget(target, N) && t < |w|
    requires 0 <= p < |target| && 0 <= i < |target| && (i == p || i == p + 1)
    ensures FacTrellis(w, trans, target).step(t, p, i) > 0.0
    ensures At(trans, target[i], target[p]) > 0.0 && At(w, t, target[i]) > 0.0
  {
    MovePositive(w, trans, N, t, target[p], target[i]);
  }

  // ---- The forward pass

  ghost predicate Buffers(trans: Weights, target: seq<int>, buf1: array<real>, buf2: array<real>)
    reads buf1, buf2
  {
    && buf1 != buf2 && buf1.Length == buf2.Length == |target|
    && forall i :: 0 <= i < |target| ==>
         buf1[i] == StayWeight(trans, target, i) && (i > 0 ==> buf2[i] == MoveWeight(trans, target, i))
  }

  ghost predicate RowDone(w: Weights, trans: Weights, target: seq<int>, alpha: array2<real>, t: nat)
    requires t < alpha.Length0 && alpha.Length1 == |target|
    reads alpha
  {
    forall i :: InBand(|target|, |w|, t, i) ==> alpha[t, i] == Alpha(FacTrellis(w, trans, target), t, i)
  }

  ghost predicate Shapes(w: Weights, trans: Weights, N: nat, target: seq<int>, alpha: array2<real>) {
    && IsModel(w, trans, N) && IsTarget(target, N) && |target| <= |w|
    && alpha.Length0 == |w| && alpha.Length1 == |target|
  }

  method ForwardRow(w: Weights, ghost trans: Weights, N: nat, target: seq<int>, alpha: array2<real>,
                    buf1: array<real>, buf2: array<real>, t: nat)
    requires Shapes(w, trans, N, target, alpha) && Buffers(trans, target, buf1, buf2) && 1 <= t < |w|
    requires RowDone(w, trans, target, alpha, t - 1)
    modifies alpha
    ensures RowDone(w, trans, target, alpha, t)
    ensures forall u, i :: 0 <= u < |w| && u != t && 0 <= i < |target| ==> alpha[u, i] == old(alpha[u, i])
  {
    hide Alpha, FacTrellis, StayWeight, MoveWeight, IsModel;
    InputShape(w, trans, N);
    ghost var tr := FacTrellis(w, trans, target);
    var T, L := |w|, |target|;
    var high := if t < L then t else L;
    var low := if T - t < L then L - (T - t) else 1;
    if T - t >= L {
      alpha[t, 0] := alpha[t - 1, 0] * buf1[0] * w[t][target[0]];
      FacValue(w, trans, target, t - 1, 0);
    }
    if t < L {
      alpha[t, high] := alpha[t - 1, high - 1] * buf2[high] * w[t][target[high]];
      FacValue(w, trans, target, t - 1, high);
    }
    for i := low to high
      invariant forall u, j :: 0 <= u < T && u != t && 0 <= j < L ==> alpha[u, j] == old(alpha[u, j])
      invariant T - t >= L ==> alpha[t, 0] == Alpha(tr, t, 0)
      invariant t < L ==> alpha[t, t] == Alpha(tr, t, t)
      invariant forall j :: low <= j < i ==> alpha[t, j] == Alpha(tr, t, j)
    {
      FacAlphaInside(w, trans, N, target, t - 1, i);
      FacAlphaInside(w, trans, N, target, t - 1, i - 1);
      BuffersPositive(w, trans, N, target, i);
      var s1 := alpha[t - 1, i] * buf1[i];
      var s2 := alpha[t - 1, i - 1] * buf2[i];
      var lse := LogSumExp(s1, s2);
      alpha[t, i] := lse * w[t][target[i]];
      FacValue(w, trans, target, t - 1, i);
    }
  }

  lemma InputShape(w: Weights, trans: Weights, N: nat)
    requires IsModel(w, trans, N)
    ensures |w| >= 1 && |trans| == N && (forall t :: 0 <= t < |w| ==> |w[t]| == N)
    ensures forall m :: 0 <= m < N ==> |trans[m]| == N
  {
  }

  lemma BuffersPositive(w: Weights, trans: Weights, N: nat, target: seq<int>, i: int)
    requires IsModel(w, trans, N) && IsTarget(target, N) && 1 <= i < |target|
    ensures StayWeight(trans, target, i) > 0.0 && MoveWeight(trans, target, i) > 0.0
  {
    FacStepPositive(w, trans, N, target, 0, i, i);
    FacStepPositive(w, trans, N, target, 0, i - 1, i);
  }

  /** The forward pass computes the summed weight of all alignments. */
  method Forward(w: Weights, trans: Weights, N: nat, target: seq<int>, alpha: array2<real>, buf1: array<real>,
                 buf2: array<real>) returns (total: real)
    requires Shapes(w, trans, N, target, alpha)
    requires buf1 != buf2 && buf1.Length == buf2.Length == |target|
    modifies alpha, buf1, buf2
    ensures total == AlignmentTotal(w, trans, target)
    ensures Buffers(trans, target, buf1, buf2)
    ensures forall t :: 0 <= t < |w| ==> RowDone(w, trans, target, alpha, t)
  {
    hide Alpha, FacTrellis, AlignmentTotal, IsModel;
    InputShape(w, trans, N);
    var T, L := |w|, |target|;
    alpha[0, 0] := w[0][target[0]];
    for i := 0 to L
      invariant forall j :: 0 <= j < i ==>
        buf1[j] == StayWeight(trans, target, j) && (j > 0 ==> buf2[j] == MoveWeight(trans, target, j))
      invariant alpha[0, 0] == w[0][target[0]]
    {
      buf1[i] := trans[target[i]][target[i]];
      buf2[i] := if i > 0 then trans[target[i]][target[i - 1]] else 1.0;
    }
    FirstRow(w, trans, N, target, alpha);
    for t := 1 to T
      invariant Buffers(trans, target, buf1, buf2)
      invariant forall u :: 0 <= u < t ==> RowDone(w, trans, target, alpha, u)
    {
      label Row:
      assert RowDone(w, trans, target, alpha, t - 1);
      ForwardRow(w, trans, N, target, alpha, buf1, buf2, t);
      forall u | 0 <= u < t ensures RowDone(w, trans, target, alpha, u) {
        assert old@Row(RowDone(w, trans, target, alpha, u));
      }
    }
    total := alpha[T - 1, L - 1];
    assert RowDone(w, trans, target, alpha, T - 1);
    LastAlpha(w, trans, target);
  }

  lemma FirstRow(w: Weights, trans: Weights, N: nat, target: seq<int>, alpha: array2<real>)
    requires Shapes(w, trans, N, target, alpha) && alpha[0, 0] == At(w, 0, target[0])
    ensures RowDone(w, trans, target, alpha, 0)
  {
  }

  lemma LastAlpha(w: Weights, trans: Weights, target: seq<int>)
    requires |w| >= 1 && |target| >= 1
    ensures Alpha(FacTrellis(w, trans, target), |w| - 1, |target| - 1) == AlignmentTotal(w, trans, target)
  {
    hide Alpha, Beta, AlignmentTotal, Sum;
    var tr, t, L := FacTrellis(w, trans, target), |w| - 1, |target|;
    forall i ensures NodeMass(tr, t, i) == if i == L - 1 then Alpha(tr, t, i) else 0.0 { BetaLast(tr, i); }
    FacIsAlignmentSum(w, trans, target);
    SumThree(L, s => NodeMass(tr, t, s), L - 1);
  }
}
