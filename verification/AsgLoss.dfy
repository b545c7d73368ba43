/** When the ASG loss (full connection minus force alignment, in the log
    domain) is never negative. */
module AsgLoss {
  import opened Sums
  import opened Trellises
  import opened Transforms
  import opened Scores
  import opened Asg

  // ---- Enough: different alignments produce different label sequences

  lemma FccNonneg(w: Weights, trans: Weights, N: nat)
    requires IsModel(w, trans, N)
    ensures Nonneg(FccTrellis(w, trans, N))
  {
  }

  lemma FacNonneg(w: Weights, trans: Weights, N: nat, target: seq<int>)
    requires IsModel(w, trans, N)
    ensures Nonneg(FacTrellis(w, trans, target))
  {
  }

  /** A position is out of reach of the end when too few frames are left. */
  lemma {:induction false} FacBetaOutside(w: Weights, trans: Weights, target: seq<int>, t: nat, i: int)
    requires t < |w| && 0 <= i < |target| && |target| - 1 - i > |w| - 1 - t
    ensures Beta(FacTrellis(w, trans, target), t, i) == 0.0
    decreases |w| - t
  {
    hide Beta, Sum, Move;
    var tr := FacTrellis(w, trans, target);
    if t + 1 == |w| {
      BetaLast(tr, i);
    } else {
      forall q | 0 <= q < |target| ensures Outgoing(tr, t, i, q) == 0.0 {
        if q == i || q == i + 1 { FacBetaOutside(w, trans, target, t + 1, q); }
      }
      BetaNext(tr, t, i);
      SumZero(|target|, q => Outgoing(tr, t, i, q));
    }
  }

  lemma FacBetaStep(w: Weights, trans: Weights, target: seq<int>, t: nat, i: int)
    requires t + 1 < |w| && 0 <= i < |target|
    ensures var tr := FacTrellis(w, trans, target);
            Beta(tr, t, i) == Outgoing(tr, t, i, i) + (if i + 1 < |target| then Outgoing(tr, t, i, i + 1) else 0.0)
  {
    hide Beta, Sum, Move;
    var tr := FacTrellis(w, trans, target);
    BetaNext(tr, t, i);
    SumThree(|target|, q => Outgoing(tr, t, i, q), i);
  }

  lemma OutgoingBelow(w: Weights, trans: Weights, N: nat, target: seq<int>, t: nat, i: int, q: int)
    requires IsModel(w, trans, N) && IsTarget(target, N) && t + 1 < |w|
    requires 0 <= i < |target| && 0 <= q < |target| && (q == i || q == i + 1)
    requires Beta(FacTrellis(w, trans, target), t + 1, q) <= Beta(FccTrellis(w, trans, N), t + 1, target[q])
    ensures Outgoing(FacTrellis(w, trans, target), t, i, q)
      <= Outgoing(FccTrellis(w, trans, N), t, target[i], target[q])
  {
    hide Beta, Move, IsModel;
    MovePositive(w, trans, N, t + 1, target[i], target[q]);
    var fac, fcc := FacTrellis(w, trans, target), FccTrellis(w, trans, N);
    assert LabelAt(target, i) == target[i] && LabelAt(target, q) == target[q];
    assert fcc.step(t + 1, target[i], target[q]) == Move(w, trans, t + 1, target[i], target[q]);
    assert fac.step(t + 1, i, q) == Move(w, trans, t + 1, LabelAt(target, i), LabelAt(target, q));
    var x := Move(w, trans, t + 1, target[i], target[q]);
    assert Outgoing(fac, t, i, q) == x * Beta(fac, t + 1, q);
    assert Outgoing(fcc, t, target[i], target[q]) == x * Beta(fcc, t + 1, target[q]);
    MulMono(x, Beta(fac, t + 1, q), Beta(fcc, t + 1, target[q]));
  }

  lemma MulMono(x: real, a: real, b: real)
    requires x > 0.0 && a <= b
    ensures x * a <= x * b
  {
  }

  lemma MovePositive(w: Weights, trans: Weights, N: nat, t: nat, p: int, c: int)
    requires IsModel(w, trans, N) && t < |w| && 0 <= p < N && 0 <= c < N
    ensures Move(w, trans, t, p, c) > 0.0
  {
  }

  predicate Injective(target: seq<int>, T: nat) {
    NoAdjacentEqual(target) || |target| >= T
  }

  /** What a target position still owes is at most what its label owes among all labels. */
  lemma {:induction false} BetaBelow(w: Weights, trans: Weights, N: nat, target: seq<int>, t: nat, i: int)
    requires IsModel(w, trans, N) && IsTarget(target, N) && t < |w| && 0 <= i < |target|
    requires NoAdjacentEqual(target) || (|target| >= |w| && i <= t)
    ensures Beta(FacTrellis(w, trans, target), t, i) <= Beta(FccTrellis(w, trans, N), t, target[i])
    decreases |w| - t
  {
    hide Beta, Sum, Move, Outgoing, IsModel;
    var fac, fcc := FacTrellis(w, trans, target), FccTrellis(w, trans, N);
    if t + 1 == |w| {
      BetaLast(fac, i);
      BetaLast(fcc, target[i]);
    } else {
      FccNonneg(w, trans, N);
      var out: int -> real := c => Outgoing(fcc, t, target[i], c);
      forall c | 0 <= c < N ensures out(c) >= 0.0 { FccOutNonneg(w, trans, N, t, target[i], c); }
      BetaNext(fcc, t, target[i]);
      FacBetaStep(w, trans, target, t, i);
      if i + 1 < |target| {
        BetaBelow(w, trans, N, target, t + 1, i + 1);
        OutgoingBelow(w, trans, N, target, t, i, i + 1);
        SumTerm(N, out, target[i + 1]);
      }
      if i + 1 == |target| || target[i] != target[i + 1] {
        BetaBelow(w, trans, N, target, t + 1, i);
        OutgoingBelow(w, trans, N, target, t, i, i);
        SumTerm(N, out, target[i]);
        if i + 1 < |target| { SumTwoTerms(N, out, target[i], target[i + 1]); }
      } else {
        FacBetaOutside(w, trans, target, t + 1, i);
        OutgoingZero(fac, t, i, i);
      }
    }
  }

  lemma OutgoingZero(tr: Trellis, t: nat, s: int, q: int)
    requires Beta(tr, t + 1, q) == 0.0
    ensures Outgoing(tr, t, s, q) == 0.0
  {
    hide Beta;
  }

  lemma FccOutNonneg(w: Weights, trans: Weights, N: nat, t: nat, p: int, c: int)
    requires IsModel(w, trans, N) && t + 1 < |w| && 0 <= p < N && 0 <= c < N
    ensures Outgoing(FccTrellis(w, trans, N), t, p, c) >= 0.0
  {
    hide Beta, Move, IsModel, Nonneg;
    FccNonneg(w, trans, N);
    BetaNonneg(FccTrellis(w, trans, N), t + 1, c);
    MovePositive(w, trans, N, t + 1, p, c);
  }

  /** The total over alignments is at most the total over all sequences. */
  lemma AlignmentsBelow(w: Weights, trans: Weights, N: nat, target: seq<int>)
    requires IsModel(w, trans, N) && IsTarget(target, N) && Injective(target, |w|)
    ensures AlignmentTotal(w, trans, target) <= FullTotal(w, trans, N)
  {
    hide Beta, Sum, AlignmentTotal, FullTotal, Alpha, IsModel, NoAdjacentEqual;
    Framed(w, trans, N);
    var fac, fcc := FacTrellis(w, trans, target), FccTrellis(w, trans, N);
    FacIsAlignmentSum(w, trans, target);
    FccIsFullSum(w, trans, N);
    FrameFlow(fac, 0);
    FrameFlow(fcc, 0);
    BetaBelow(w, trans, N, target, 0, 0);
    FirstAlpha(w, trans, N, target);
    FccNonneg(w, trans, N);
    forall c | 0 <= c < N ensures NodeMass(fcc, 0, c) >= 0.0 {
      AlphaNonneg(fcc, 0, c);
      BetaNonneg(fcc, 0, c);
    }
    SumTerm(N, c => NodeMass(fcc, 0, c), target[0]);
    SumThree(|target|, i => NodeMass(fac, 0, i), 0);
  }

  lemma Framed(w: Weights, trans: Weights, N: nat)
    requires IsModel(w, trans, N)
    ensures |w| >= 1
  {
  }

  lemma FirstAlpha(w: Weights, trans: Weights, N: nat, target: seq<int>)
    requires IsModel(w, trans, N) && IsTarget(target, N)
    ensures forall i :: i != 0 ==> Alpha(FacTrellis(w, trans, target), 0, i) == 0.0
    ensures Alpha(FacTrellis(w, trans, target), 0, 0) == Alpha(FccTrellis(w, trans, N), 0, target[0]) > 0.0
  {
  }

  // ---- Needed: otherwise two alignments share a label sequence

  function Pow(x: real, n: nat): real {
    if n == 0 then 1.0 else x * Pow(x, n - 1)
  }

  /** (1 + x)^n * (1 - n x) <= 1. */
  lemma {:induction false} PowBound(x: real, n: nat)
    requires x >= 0.0 && n as real * x <= 1.0
    ensures Pow(1.0 + x, n) >= 1.0 && Pow(1.0 + x, n) * (1.0 - n as real * x) <= 1.0
  {
    if n > 0 {
      var k := n - 1;
      var kx := k as real * x;
      assert n as real * x == kx + x;
      PowBound(x, k);
      var P := Pow(1.0 + x, k);
      PowStep(P, x, kx);
    }
  }

  lemma PowStep(P: real, x: real, kx: real)
    requires P >= 1.0 && x >= 0.0 && kx >= 0.0 && P * (1.0 - kx) <= 1.0
    ensures (1.0 + x) * P >= 1.0 && ((1.0 + x) * P) * (1.0 - (kx + x)) <= 1.0
  {
    assert (1.0 + x) * P == P + x * P;
    assert ((1.0 + x) * P) * (1.0 - (kx + x)) == P * (1.0 - kx) - P * (x * (kx + x));
    assert P * (x * (kx + x)) >= 0.0;
  }

  /** Frame weights that all but force one label sequence. */
  function Forcing(pi: seq<int>, N: nat, eps: real): Weights {
    seq(|pi|, t requires 0 <= t < |pi| => seq(N, c => if c == pi[t] then 1.0 else eps))
  }

  function Flat(N: nat): Weights {
    seq(N, m => seq(N, n => 1.0))
  }

  lemma ForcingIsModel(pi: seq<int>, N: nat, eps: real)
    requires |pi| >= 1 && N >= 1 && eps > 0.0
    ensures IsModel(Forcing(pi, N, eps), Flat(N), N)
  {
  }

  lemma ForcingRow(pi: seq<int>, N: nat, eps: real, t: nat)
    requires t < |pi| && 0 <= pi[t] < N
    ensures Sum(N, c => At(Forcing(pi, N, eps), t, c)) == 1.0 + (N - 1) as real * eps
  {
    var f: int -> real := c => At(Forcing(pi, N, eps), t, c);
    SumExtract(N, f, pi[t]);
    var g := Without(f, pi[t]);
    var h: int -> real := c => if c == pi[t] then 0.0 - eps else 0.0;
    SumExtract(N, h, pi[t]);
    SumZero(N, Without(h, pi[t]));
    SumConst(N, eps);
    SumAdd(N, i => eps, h, g);
  }

  lemma {:induction false} SumConst(n: nat, x: real)
    ensures Sum(n, i => x) == n as real * x
  {
    if n > 0 {
      SumConst(n - 1, x);
      assert n as real * x == (n - 1) as real * x + x;
    }
  }

  lemma {:induction false} ForcingBeta(pi: seq<int>, N: nat, eps: real, t: nat, c: int)
    requires Below(pi, N) && t < |pi| && 0 <= c < N
    ensures Beta(FccTrellis(Forcing(pi, N, eps), Flat(N), N), t, c) == Pow(1.0 + (N - 1) as real * eps, |pi| - 1 - t)
    decreases |pi| - t
  {
    hide Beta, Sum, At, Pow;
    var tr, q := FccTrellis(Forcing(pi, N, eps), Flat(N), N), 1.0 + (N - 1) as real * eps;
    if t + 1 == |pi| {
      BetaLast(tr, c);
      PowZero(q);
    } else {
      var rest := Pow(q, |pi| - 2 - t);
      forall d | 0 <= d < N ensures Outgoing(tr, t, c, d) == rest * At(Forcing(pi, N, eps), t + 1, d) {
        ForcingBeta(pi, N, eps, t + 1, d);
        FlatAt(N, d, c);
      }
      BetaNext(tr, t, c);
      SumScale(N, rest, d => At(Forcing(pi, N, eps), t + 1, d), d => Outgoing(tr, t, c, d));
      ForcingRow(pi, N, eps, t + 1);
      PowNext(q, |pi| - 2 - t);
    }
  }

  lemma PowZero(x: real) ensures Pow(x, 0) == 1.0 {}

  lemma PowNext(x: real, n: nat) ensures Pow(x, n + 1) == x * Pow(x, n) {}

  lemma FlatAt(N: nat, c: int, p: int)
    requires 0 <= c < N && 0 <= p < N
    ensures At(Flat(N), c, p) == 1.0
  {
  }

  lemma ForcingTotal(pi: seq<int>, N: nat, eps: real)
    requires Below(pi, N) && |pi| >= 1 && N >= 1
    ensures FullTotal(Forcing(pi, N, eps), Flat(N), N) == Pow(1.0 + (N - 1) as real * eps, |pi|)
  {
    hide Beta, Sum, At, Pow, FullTotal;
    var w, q := Forcing(pi, N, eps), 1.0 + (N - 1) as real * eps;
    var tr, rest := FccTrellis(w, Flat(N), N), Pow(q, |pi| - 1);
    FccIsFullSum(w, Flat(N), N);
    FrameFlow(tr, 0);
    forall c | 0 <= c < N ensures NodeMass(tr, 0, c) == rest * At(w, 0, c) {
      ForcingBeta(pi, N, eps, 0, c);
      AlphaFirst(tr, c);
    }
    SumScale(N, rest, c => At(w, 0, c), c => NodeMass(tr, 0, c));
    ForcingRow(pi, N, eps, 0);
    PowNext(q, |pi| - 1);
  }

  lemma {:induction false} ForcedWeight(pi: seq<int>, N: nat, eps: real, n: nat)
    requires Below(pi, N) && 1 <= n <= |pi|
    ensures SequenceWeight(Forcing(pi, N, eps), Flat(N), pi[..n]) == 1.0
  {
    if n > 1 {
      ForcedWeight(pi, N, eps, n - 1);
      assert pi[..n][..n - 1] == pi[..n - 1];
      SequenceWeightStep(Forcing(pi, N, eps), Flat(N), pi[..n]);
    }
  }

  lemma {:induction false} SequenceNonneg(w: Weights, trans: Weights, N: nat, pi: seq<int>)
    requires IsModel(w, trans, N) && |pi| >= 1
    ensures SequenceWeight(w, trans, pi) >= 0.0
  {
    var n := |pi| - 1;
    if n > 0 {
      SequenceNonneg(w, trans, N, pi[..n]);
      hide SequenceWeight;
      SequenceWeightStep(w, trans, pi);
    }
  }

  /** The alignment that spends all spare frames on position k. */
  function Stay(L: nat, T: nat, k: nat): seq<int>
    requires L <= T
  {
    seq(T, t => if t <= k then t else if t <= k + T - L then k else t - (T - L))
  }

  lemma StayIsAlignment(L: nat, T: nat, k: nat)
    requires k < L < T
    ensures |Stay(L, T, k)| == T && IsAlignment(Stay(L, T, k), L) && Below(Stay(L, T, k), L)
  {
  }

  lemma SameLabels(target: seq<int>, T: nat, k: nat)
    requires 1 <= k < |target| < T && target[k - 1] == target[k]
    ensures Spread(target, Stay(|target|, T, k - 1)) == Spread(target, Stay(|target|, T, k))
    ensures Stay(|target|, T, k - 1) != Stay(|target|, T, k)
  {
    assert Stay(|target|, T, k - 1)[k] != Stay(|target|, T, k)[k];
  }

  /** A repeated label with a frame to spare: some weights make the loss negative. */
  lemma AlignmentsAbove(N: nat, target: seq<int>, T: nat, k: nat) returns (w: Weights, trans: Weights)
    requires IsTarget(target, N) && 1 <= k < |target| < T && target[k - 1] == target[k]
    ensures IsModel(w, trans, N) && |w| == T && AlignmentTotal(w, trans, target) > FullTotal(w, trans, N)
  {
    hide FullTotal, AlignmentTotal, Pow, IsModel, IsAlignment, Forcing, Flat, Stay, Spread;
    var a, b := Stay(|target|, T, k - 1), Stay(|target|, T, k);
    StayIsAlignment(|target|, T, k - 1);
    StayIsAlignment(|target|, T, k);
    SameLabels(target, T, k);
    SpreadBelow(target, N, b);
    var pi := Spread(target, b);
    var eps := SmallEps(N, T);
    w, trans := Forcing(pi, N, eps), Flat(N);
    ForcingIsModel(pi, N, eps);
    ForcingTotal(pi, N, eps);
    ForcedWhole(pi, N, eps);
    TwoAlignments(w, trans, N, target, a, b);
  }

  lemma SpreadBelow(target: seq<int>, N: nat, a: seq<int>)
    requires IsTarget(target, N) && Below(a, |target|)
    ensures |Spread(target, a)| == |a| && Below(Spread(target, a), N) && N >= 1
  {
    assert 0 <= target[0] < N;
  }

  lemma ForcedWhole(pi: seq<int>, N: nat, eps: real)
    requires Below(pi, N) && |pi| >= 1
    ensures |Forcing(pi, N, eps)| == |pi| && WeightOf(Forcing(pi, N, eps), Flat(N), pi) == 1.0
  {
    ForcedWeight(pi, N, eps, |pi|);
    assert pi[..|pi|] == pi;
  }

  lemma TwoAlignments(w: Weights, trans: Weights, N: nat, target: seq<int>, a: seq<int>, b: seq<int>)
    requires IsModel(w, trans, N) && |a| == |b| == |w| && a != b && Below(a, |target|) && Below(b, |target|)
    requires IsAlignment(a, |target|) && IsAlignment(b, |target|)
    ensures AlignmentTotal(w, trans, target)
         >= WeightOf(w, trans, Spread(target, a)) + WeightOf(w, trans, Spread(target, b))
  {
    hide SequenceWeight, SumExtensions, IsModel;
    forall c ensures AlignedWeight(w, trans, target, c) >= 0.0 {
      if c != [] { SequenceNonneg(w, trans, N, Spread(target, c)); }
    }
    SumExtensionsTwo(|target|, [], |w|, c => AlignedWeight(w, trans, target, c), a, b);
  }

  lemma SmallEps(N: nat, T: nat) returns (eps: real)
    requires N >= 1 && T >= 1
    ensures eps > 0.0 && Pow(1.0 + (N - 1) as real * eps, T) < 2.0
  {
    hide Pow;
    assert N * T >= 1;
    eps := 1.0 / (4 * N * T) as real;
    var x := (N - 1) as real * eps;
    SmallStep(N, T);
    PowBound(x, T);
    PowSmall(Pow(1.0 + x, T), T as real * x);
  }

  lemma PowSmall(P: real, y: real)
    requires P >= 1.0 && y <= 0.25 && P * (1.0 - y) <= 1.0
    ensures P < 2.0
  {
    assert P * (1.0 - y) >= P * 0.75;
  }

  lemma SmallStep(N: nat, T: nat)
    requires N >= 1 && T >= 1
    ensures var x := (N - 1) as real * (1.0 / (4 * N * T) as real); x >= 0.0 && T as real * x <= 0.25
  {
    var n := (4 * N * T) as real;
    var e := 1.0 / n;
    assert n == 4.0 * (N as real * T as real);
    assert e * n == 1.0;
    var y := N as real * T as real * e;
    assert y == 0.25;
    assert T as real * ((N - 1) as real * e) == y - T as real * e;
    assert T as real * e >= 0.0;
  }

  /** The ASG loss is non-negative for every positive model of N labels and T
      frames exactly when no two alignments of the target share their labels:
      the target has no two equal neighbours, or leaves no frame to spare. */
  lemma LossNonneg(N: nat, target: seq<int>, T: nat)
    requires IsTarget(target, N) && T >= 1
    ensures (forall w, trans :: IsModel(w, trans, N) && |w| == T ==>
               AlignmentTotal(w, trans, target) <= FullTotal(w, trans, N))
            <==> NoAdjacentEqual(target) || |target| >= T
  {
    hide AlignmentTotal, FullTotal, IsModel;
    if NoAdjacentEqual(target) || |target| >= T {
      forall w, trans | IsModel(w, trans, N) && |w| == T
        ensures AlignmentTotal(w, trans, target) <= FullTotal(w, trans, N) {
        AlignmentsBelow(w, trans, N, target);
      }
    } else {
      var k :| 0 < k < |target| && target[k - 1] == target[k];
      var w, trans := AlignmentsAbove(N, target, T, k);
    }
  }
}
