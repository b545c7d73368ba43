/** The auto-segmentation criterion: the total over all label sequences (full
    connection) and the total over the alignments of a target (force
    alignment), as trellises and as brute-force sums. `trans` holds the
    transition weights, row = label moved to, column = label moved from. */
module Asg {
  import opened Sums
  import opened Trellises
  import opened Scores

  ghost predicate IsModel(w: Weights, trans: Weights, N: nat) {
    Positive(w, N) && Positive(trans, N) && |trans| == N
  }

  predicate IsTarget(target: seq<int>, N: nat) {
    |target| >= 1 && forall i :: 0 <= i < |target| ==> 0 <= target[i] < N
  }

  /** The weight of being in label c at frame t after label p. */
  function Move(w: Weights, trans: Weights, t: int, p: int, c: int): real {
    At(trans, c, p) * At(w, t, c)
  }

  /** Emissions and transitions along a label sequence, one label per frame. */
  function SequenceWeight(w: Weights, trans: Weights, pi: seq<int>): real
    requires |pi| >= 1
  {
    var n := |pi| - 1;
    if n == 0 then At(w, 0, pi[0]) else SequenceWeight(w, trans, pi[..n]) * Move(w, trans, n, pi[n - 1], pi[n])
  }

  function WeightOf(w: Weights, trans: Weights, pi: seq<int>): real {
    if pi == [] then 0.0 else SequenceWeight(w, trans, pi)
  }

  /** The summed weight of all N^T label sequences. */
  function FullTotal(w: Weights, trans: Weights, N: nat): real {
    SumSequences(N, |w|, pi => WeightOf(w, trans, pi))
  }

  // ---- Alignments

  /** A way to walk the L target positions in |a| frames: from the first to the
      last, staying or moving on by one at every frame. */
  predicate IsAlignment(a: seq<int>, L: nat) {
    && |a| >= 1 && a[0] == 0 && a[|a| - 1] == L - 1
    && forall t :: 0 < t < |a| ==> a[t] == a[t - 1] || a[t] == a[t - 1] + 1
  }

  function LabelAt(target: seq<int>, i: int): int {
    if 0 <= i < |target| then target[i] else -1
  }

  /** The label sequence an alignment produces. */
  function Spread(target: seq<int>, a: seq<int>): seq<int> {
    seq(|a|, t requires 0 <= t < |a| => LabelAt(target, a[t]))
  }

  function AlignedWeight(w: Weights, trans: Weights, target: seq<int>, a: seq<int>): real {
    if IsAlignment(a, |target|) then WeightOf(w, trans, Spread(target, a)) else 0.0
  }

  /** The summed weight of all alignments of the target. */
  function AlignmentTotal(w: Weights, trans: Weights, target: seq<int>): real {
    SumSequences(|target|, |w|, a => AlignedWeight(w, trans, target, a))
  }

  // ---- The two trellises

  function FccTrellis(w: Weights, trans: Weights, N: nat): Trellis {
    Trellis(|w|, N, c => At(w, 0, c), (t, p, c) => Move(w, trans, t, p, c), c => 1.0)
  }

  function FacTrellis(w: Weights, trans: Weights, target: seq<int>): Trellis {
    Trellis(|w|, |target|,
            i => if i == 0 then At(w, 0, LabelAt(target, 0)) else 0.0,
            (t, p, i) => if i == p || i == p + 1 then Move(w, trans, t, LabelAt(target, p), LabelAt(target, i))
              else 0.0,
            i => if i == |target| - 1 then 1.0 else 0.0)
  }

  lemma SequenceWeightStep(w: Weights, trans: Weights, pi: seq<int>)
    requires |pi| >= 2
    ensures SequenceWeight(w, trans, pi)
         == SequenceWeight(w, trans, pi[..|pi| - 1]) * Move(w, trans, |pi| - 1, pi[|pi| - 2], pi[|pi| - 1])
  {
    hide Move, At;
  }

  lemma {:induction false} FccPrefix(w: Weights, trans: Weights, N: nat, pi: seq<int>)
    requires |pi| >= 1
    ensures PrefixWeight(FccTrellis(w, trans, N), pi) == SequenceWeight(w, trans, pi)
  {
    if |pi| > 1 {
      hide SequenceWeight, PrefixWeight, Move;
      FccPrefix(w, trans, N, pi[..|pi| - 1]);
      SequenceWeightStep(w, trans, pi);
      PrefixWeightStep(FccTrellis(w, trans, N), pi);
    }
  }

  /** The full-connection total is the sum over all label sequences. */
  lemma FccIsFullSum(w: Weights, trans: Weights, N: nat)
    requires |w| >= 1
    ensures Total(FccTrellis(w, trans, N)) == FullTotal(w, trans, N)
  {
    hide SequenceWeight, PrefixWeight, Total, SumExtensions;
    var tr := FccTrellis(w, trans, N);
    forall pi: seq<int> | |pi| == |w| ensures PathWeight(tr, pi) == WeightOf(w, trans, pi) {
      FccPrefix(w, trans, N, pi);
    }
    hide PathWeight, WeightOf;
    TotalIsPathSum(tr);
    SumExtensionsExt(N, [], |w|, pi => PathWeight(tr, pi), pi => WeightOf(w, trans, pi));
  }

  /** The monotone part of being an alignment. */
  predicate IsWalk(a: seq<int>) {
    |a| >= 1 && a[0] == 0 && forall t :: 0 < t < |a| ==> a[t] == a[t - 1] || a[t] == a[t - 1] + 1
  }

  lemma {:induction false} FacPrefix(w: Weights, trans: Weights, target: seq<int>, a: seq<int>)
    requires |a| >= 1
    ensures PrefixWeight(FacTrellis(w, trans, target), a)
         == if IsWalk(a) then SequenceWeight(w, trans, Spread(target, a)) else 0.0
  {
    var n := |a| - 1;
    if n > 0 {
      hide SequenceWeight, PrefixWeight, Move, LabelAt;
      var tr := FacTrellis(w, trans, target);
      FacPrefix(w, trans, target, a[..n]);
      PrefixWeightStep(tr, a);
      assert Spread(target, a)[..n] == Spread(target, a[..n]);
      SequenceWeightStep(w, trans, Spread(target, a));
      assert IsWalk(a) <==> IsWalk(a[..n]) && (a[n] == a[n - 1] || a[n] == a[n - 1] + 1);
    }
  }

  /** The force-alignment total is the sum over all alignments. */
  lemma FacIsAlignmentSum(w: Weights, trans: Weights, target: seq<int>)
    requires |w| >= 1 && |target| >= 1
    ensures Total(FacTrellis(w, trans, target)) == AlignmentTotal(w, trans, target)
  {
    hide SequenceWeight, PrefixWeight, Total, SumExtensions, Spread;
    var tr := FacTrellis(w, trans, target);
    forall a: seq<int> | |a| == |w| ensures PathWeight(tr, a) == AlignedWeight(w, trans, target, a) {
      FacPath(w, trans, target, a);
    }
    hide PathWeight, AlignedWeight;
    TotalIsPathSum(tr);
    SumExtensionsExt(|target|, [], |w|, a => PathWeight(tr, a), a => AlignedWeight(w, trans, target, a));
  }

  lemma FacPath(w: Weights, trans: Weights, target: seq<int>, a: seq<int>)
    requires |a| >= 1
    ensures PathWeight(FacTrellis(w, trans, target), a) == AlignedWeight(w, trans, target, a)
  {
    hide SequenceWeight, PrefixWeight;
    FacPrefix(w, trans, target, a);
  }
}
