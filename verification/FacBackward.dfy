/** The backward pass of the force-alignment criterion, for one sample. */
module FacBackward {
  import opened Sums
  import opened Matrices
  import opened Trellises
  import opened Posteriors
  import opened Scores
  import opened Asg
  import opened AsgLoss
  import opened ForceAlignment
  import opened ForceAlignmentGrad
  import opened FacMeaning

  // ---- Input gradients

  /** The mass of label c at frame t among the first k positions. */
  function LabelTo(tr: Trellis, target: seq<int>, t: nat, c: int, k: nat): real {
    MassTo(tr, t, HasLabel(target, c), k)
  }

  function MassTo(tr: Trellis, t: nat, keep: int -> bool, k: nat): real {
    Sum(k, s => if keep(s) then NodeMass(tr, t, s) else 0.0)
  }

  lemma LabelToNext(tr: Trellis, target: seq<int>, t: nat, c: int, k: nat)
    ensures LabelTo(tr, target, t, c, k + 1)
         == LabelTo(tr, target, t, c, k) + (if LabelAt(target, k) == c then NodeMass(tr, t, k) else 0.0)
  {
    hide NodeMass, LabelAt, MassTo;
    MassToNext(tr, t, HasLabel(target, c), k);
  }

  lemma MassToNext(tr: Trellis, t: nat, keep: int -> bool, k: nat)
    ensures MassTo(tr, t, keep, k + 1) == MassTo(tr, t, keep, k) + (if keep(k) then NodeMass(tr, t, k) else 0.0)
  {
    hide NodeMass;
  }

  lemma LabelToEnds(w: Weights, trans: Weights, target: seq<int>, t: nat, c: int, low: int, high: int)
    requires t < |w| && |target| <= |w| && 0 <= low <= high <= |target|
    requires forall i :: low <= i < high <==> InBand(|target|, |w|, t, i)
    ensures LabelTo(FacTrellis(w, trans, target), target, t, c, low) == 0.0
    ensures LabelTo(FacTrellis(w, trans, target), target, t, c, high)
         == NodeMassWhere(FacTrellis(w, trans, target), t, HasLabel(target, c))
  {
    hide Sum, NodeMass, LabelAt;
    var tr, keep := FacTrellis(w, trans, target), HasLabel(target, c);
    forall i | 0 <= i < |target| && !(low <= i < high) ensures NodeMass(tr, t, i) == 0.0 {
      NoMassOutside(w, trans, target, t, i);
    }
    var f: int -> real := s => if keep(s) then NodeMass(tr, t, s) else 0.0;
    SumZero(low, f);
    SumTrim(high, |target|, f);
  }

  lemma NoMassOutside(w: Weights, trans: Weights, target: seq<int>, t: nat, i: int)
    requires t < |w| && 0 <= i < |target| && !InBand(|target|, |w|, t, i)
    ensures NodeMass(FacTrellis(w, trans, target), t, i) == 0.0
  {
    hide Alpha, Beta;
    if i > t {
      FacAlphaOutside(w, trans, target, t, i);
    } else {
      FacBetaOutside(w, trans, target, t, i);
    }
  }

  ghost predicate InputRow(tr: Trellis, target: seq<int>, inputGrad: array2<real>, Z: real, t: nat)
    requires t < inputGrad.Length0
    reads inputGrad
  {
    forall c :: 0 <= c < inputGrad.Length1 ==> Times(inputGrad[t, c], Z) == NodeMassWhere(tr, t, HasLabel(target, c))
  }

  /** The gradients of frame t are added up by label. */
  method AddInputs(ghost w: Weights, ghost trans: Weights, N: nat, target: seq<int>, alphaGrad: array2<real>,
                   inputGrad: array2<real>, ghost Z: real, t: nat)
    requires IsTarget(target, N) && t < |w| && |target| <= |w| && alphaGrad != inputGrad
    requires alphaGrad.Length0 == inputGrad.Length0 == |w| && alphaGrad.Length1 == |target| && inputGrad.Length1 == N
    requires MassRow(FacTrellis(w, trans, target), alphaGrad, Z, t)
    requires forall c :: 0 <= c < N ==> inputGrad[t, c] == 0.0
    modifies inputGrad
    ensures InputRow(FacTrellis(w, trans, target), target, inputGrad, Z, t)
    ensures forall u, c :: 0 <= u < |w| && u != t && 0 <= c < N ==> inputGrad[u, c] == old(inputGrad[u, c])
  {
    hide NodeMass, NodeMassWhere, LabelTo, Times;
    ghost var tr := FacTrellis(w, trans, target);
    var T, L := alphaGrad.Length0, |target|;
    var high1 := if t < L then t + 1 else L;
    var low1 := if T - t < L then L - (T - t) else 0;
    forall c | 0 <= c < N
      ensures LabelTo(tr, target, t, c, low1) == 0.0
      ensures LabelTo(tr, target, t, c, high1) == NodeMassWhere(tr, t, HasLabel(target, c)) {
      LabelToEnds(w, trans, target, t, c, low1, high1);
    }
    TimesZero(Z);
    for i := low1 to high1
      invariant forall u, c :: 0 <= u < T && u != t && 0 <= c < N ==> inputGrad[u, c] == old(inputGrad[u, c])
      invariant forall c :: 0 <= c < N ==> Times(inputGrad[t, c], Z) == LabelTo(tr, target, t, c, i)
    {
      forall c | 0 <= c < N
        ensures LabelTo(tr, target, t, c, i + 1)
             == LabelTo(tr, target, t, c, i) + (if target[i] == c then NodeMass(tr, t, i) else 0.0) {
        LabelToNext(tr, target, t, c, i);
      }
      TimesAdd(inputGrad[t, target[i]], alphaGrad[t, i], Z);
      inputGrad[t, target[i]] := inputGrad[t, target[i]] + alphaGrad[t, i];
    }
  }

  // ---- Transition gradients

  /** The two buffers are scattered over the label pairs they stand for. */
  method Scatter(ghost tr: Trellis, N: nat, target: seq<int>, grad1: array<real>, grad2: array<real>,
                 transGrad: array2<real>, ghost Z: real)
    requires IsTarget(target, N) && grad1.Length == grad2.Length == |target|
    requires transGrad.Length0 == transGrad.Length1 == N
    requires transGrad as object != grad1 && transGrad as object != grad2
    requires forall i :: 0 <= i < |target| ==> Times(grad1[i], Z) == StayMass(tr, i, 0)
    requires forall i :: 1 <= i < |target| ==> Times(grad2[i], Z) == MoveMass(tr, i, 0)
    requires forall m, n :: 0 <= m < N && 0 <= n < N ==> transGrad[m, n] == 0.0
    modifies transGrad
    ensures forall m, n :: 0 <= m < N && 0 <= n < N ==>
              Times(transGrad[m, n], Z) == MovesTo(tr, target, n, m, |target|)
  {
    hide Times, StayMass, MoveMass, Sum, BufferMoves;
    TimesZero(Z);
    forall m, n ensures MovesTo(tr, target, n, m, 0) == 0.0 { MovesToZero(tr, target, n, m); }
    for i := 0 to |target|
      invariant forall m, n :: 0 <= m < N && 0 <= n < N ==> Times(transGrad[m, n], Z) == MovesTo(tr, target, n, m, i)
    {
      forall m, n ensures MovesTo(tr, target, n, m, i + 1)
        == MovesTo(tr, target, n, m, i) + BufferMovesOf(target, n, m, i, StayMass(tr, i, 0), MoveMass(tr, i, 0)) {
        MovesToNext(tr, target, n, m, i);
      }
      TimesAdd(transGrad[target[i], target[i]], grad1[i], Z);
      transGrad[target[i], target[i]] := transGrad[target[i], target[i]] + grad1[i];
      if i > 0 {
        TimesAdd(transGrad[target[i], target[i - 1]], grad2[i], Z);
        transGrad[target[i], target[i - 1]] := transGrad[target[i], target[i - 1]] + grad2[i];
      }
    }
  }

  function MovesTo(tr: Trellis, target: seq<int>, n: int, m: int, k: nat): real {
    Sum(k, i => BufferMoves(tr, target, n, m, i))
  }

  function BufferMovesOf(target: seq<int>, n: int, m: int, i: int, stay: real, move: real): real {
    (if LabelAt(target, i) == m && LabelAt(target, i) == n then stay else 0.0)
    + (if i > 0 && LabelAt(target, i) == m && LabelAt(target, i - 1) == n then move else 0.0)
  }

  lemma MovesToZero(tr: Trellis, target: seq<int>, n: int, m: int)
    ensures MovesTo(tr, target, n, m, 0) == 0.0
  {
  }

  lemma MovesToNext(tr: Trellis, target: seq<int>, n: int, m: int, i: nat)
    ensures MovesTo(tr, target, n, m, i + 1)
         == MovesTo(tr, target, n, m, i) + BufferMovesOf(target, n, m, i, StayMass(tr, i, 0), MoveMass(tr, i, 0))
  {
    hide StayMass, MoveMass, LabelAt;
  }

  // ---- The pass itself

  /** Everything about frames t and later is done. */
  ghost predicate Ready(w: Weights, trans: Weights, N: nat, target: seq<int>, alpha: array2<real>, buf1: array<real>,
                        buf2: array<real>, alphaGrad: array2<real>, grad1: array<real>, grad2: array<real>,
                        inputGrad: array2<real>, Z: real, t: nat)
    reads alpha, buf1, buf2, alphaGrad, grad1, grad2, inputGrad
  {
    && Shapes(w, trans, N, target, alpha) && Buffers(trans, target, buf1, buf2) && t < |w|
    && GradShapes(FacTrellis(w, trans, target), alphaGrad, grad1, grad2)
    && alpha != alphaGrad && inputGrad != alphaGrad && inputGrad != alpha && inputGrad.Length0 == |w|
      && inputGrad.Length1 == N
    && {buf1, buf2} !! {grad1, grad2} && {alphaGrad as object, inputGrad} !! {buf1 as object, buf2, grad1, grad2}
    && alpha as object !in {grad1 as object, grad2}
    && (forall u :: 0 <= u < |w| ==> RowDone(w, trans, target, alpha, u))
    && MassRow(FacTrellis(w, trans, target), alphaGrad, Z, t)
    && (forall u, i :: 0 <= u < t && 0 <= i < |target| ==> alphaGrad[u, i] == 0.0)
    && (forall i :: 0 <= i < |target| ==> Times(grad1[i], Z) == StayMass(FacTrellis(w, trans, target), i, t))
    && (forall i :: 1 <= i < |target| ==> Times(grad2[i], Z) == MoveMass(FacTrellis(w, trans, target), i, t))
    && (forall u, c :: 0 <= u <= t && 0 <= c < N ==> inputGrad[u, c] == 0.0)
    && (forall u :: t < u < |w| ==> InputRow(FacTrellis(w, trans, target), target, inputGrad, Z, u))
  }

  method BackwardFrame(ghost w: Weights, ghost trans: Weights, N: nat, target: seq<int>, alpha: array2<real>,
                       buf1: array<real>, buf2: array<real>, alphaGrad: array2<real>, grad1: array<real>,
                       grad2: array<real>, inputGrad: array2<real>, ghost Z: real, t: nat)
    requires 1 <= t && Ready(w, trans, N, target, alpha, buf1, buf2, alphaGrad, grad1, grad2, inputGrad, Z, t)
    modifies alphaGrad, grad1, grad2, inputGrad
    ensures Ready(w, trans, N, target, alpha, buf1, buf2, alphaGrad, grad1, grad2, inputGrad, Z, t - 1)
  {
    hide IsModel, Times, StayMass, MoveMass, MassRow, RowDone, StayWeight, MoveWeight, NodeMassWhere, AlphaPart,
         TransPart;
    ghost var tr := FacTrellis(w, trans, target);
    AddInputs(w, trans, N, target, alphaGrad, inputGrad, Z, t);
    StartFrame(tr, alphaGrad, grad1, grad2, Z, t - 1);
    assert RowDone(w, trans, target, alpha, t - 1);
    BackwardRow(w, trans, N, target, alpha, buf1, buf2, alphaGrad, grad1, grad2, Z, t - 1);
    forall u | t < u < |w| ensures InputRow(tr, target, inputGrad, Z, u) {
      assert old(InputRow(tr, target, inputGrad, Z, u));
    }
  }

  lemma StartFrame(tr: Trellis, alphaGrad: array2<real>, grad1: array<real>, grad2: array<real>, Z: real, v: nat)
    requires GradShapes(tr, alphaGrad, grad1, grad2) && v + 1 < tr.T
    requires forall i :: 0 <= i < tr.S ==> alphaGrad[v, i] == 0.0 && Times(grad1[i], Z) == StayMass(tr, i, v + 1)
    requires forall i :: 1 <= i < tr.S ==> Times(grad2[i], Z) == MoveMass(tr, i, v + 1)
    ensures AlphaPart(tr, alphaGrad, Z, v, {}) && TransPart(tr, grad1, grad2, Z, v, {})
  {
    hide StayMass, MoveMass, EdgeMass, Times;
    TimesZero(Z);
  }

  /** The pass over all frames. */
  method BackwardFrames(ghost w: Weights, ghost trans: Weights, N: nat, target: seq<int>, alpha: array2<real>,
                        buf1: array<real>, buf2: array<real>, alphaGrad: array2<real>, grad1: array<real>,
                        grad2: array<real>, inputGrad: array2<real>, ghost Z: real)
    requires |w| >= 1 && alpha.Length0 == |w|
    requires Ready(w, trans, N, target, alpha, buf1, buf2, alphaGrad, grad1, grad2, inputGrad, Z, |w| - 1)
    modifies alphaGrad, grad1, grad2, inputGrad
    ensures Ready(w, trans, N, target, alpha, buf1, buf2, alphaGrad, grad1, grad2, inputGrad, Z, 0)
  {
    hide Ready;
    var t := alpha.Length0 - 1;
    while t > 0
      invariant 0 <= t < |w|
      invariant Ready(w, trans, N, target, alpha, buf1, buf2, alphaGrad, grad1, grad2, inputGrad, Z, t)
    {
      BackwardFrame(w, trans, N, target, alpha, buf1, buf2, alphaGrad, grad1, grad2, inputGrad, Z, t);
      t := t - 1;
    }
  }

  lemma FirstReady(w: Weights, trans: Weights, target: seq<int>, alphaGrad: array2<real>, grad1: array<real>,
                   grad2: array<real>, t: nat)
    requires t == |w| - 1 && |target| >= 1 && GradShapes(FacTrellis(w, trans, target), alphaGrad, grad1, grad2)
    requires forall i :: 0 <= i < |target| ==> alphaGrad[t, i] == if i == |target| - 1 then 1.0 else 0.0
    requires forall i :: 0 <= i < |target| ==> grad1[i] == 0.0 && grad2[i] == 0.0
    ensures var tr, Z := FacTrellis(w, trans, target), AlignmentTotal(w, trans, target);
            && MassRow(tr, alphaGrad, Z, t)
            && (forall i :: 0 <= i < |target| ==> Times(grad1[i], Z) == StayMass(tr, i, t))
            && (forall i :: 1 <= i < |target| ==> Times(grad2[i], Z) == MoveMass(tr, i, t))
  {
    hide Alpha, Beta, AlignmentTotal, EdgeMass;
    LastAlpha(w, trans, target);
    var tr := FacTrellis(w, trans, target);
    forall i | 0 <= i < |target|
      ensures Times(alphaGrad[t, i], AlignmentTotal(w, trans, target)) == NodeMass(tr, t, i) {
      BetaLast(tr, i);
    }
  }

  lemma SomeAlignment(w: Weights, trans: Weights, N: nat, target: seq<int>)
    requires IsModel(w, trans, N) && IsTarget(target, N) && |target| <= |w|
    ensures AlignmentTotal(w, trans, target) > 0.0
  {
    hide Alpha, AlignmentTotal, IsModel;
    LastAlpha(w, trans, target);
    FacAlphaInside(w, trans, N, target, |w| - 1, |target| - 1);
  }

  /** The gradients are posteriors over alignments. */
  ghost predicate GradMeans(w: Weights, trans: Weights, N: nat, target: seq<int>, inputGrad: array2<real>,
                            transGrad: array2<real>, gradScale: real)
    reads inputGrad, transGrad
  {
    && |w| >= 1 && inputGrad.Length0 == |w| && inputGrad.Length1 == transGrad.Length0 == transGrad.Length1 == N
    && (forall t, c :: 0 <= t < |w| && 0 <= c < N ==>
          inputGrad[t, c] * AlignmentTotal(w, trans, target) == gradScale * AlignedAt(w, trans, target, t, c))
    && (forall m, n :: 0 <= m < N && 0 <= n < N ==>
          transGrad[m, n] * AlignmentTotal(w, trans, target) == gradScale * AlignedMoves(w, trans, target, n, m))
  }

  /** Each frame's input gradients sum to gradScale, all transition gradients to (T - 1) * gradScale. */
  lemma GradTotals(w: Weights, trans: Weights, N: nat, target: seq<int>, inputGrad: array2<real>,
                   transGrad: array2<real>, gradScale: real)
    requires IsTarget(target, N) && AlignmentTotal(w, trans, target) > 0.0
    requires GradMeans(w, trans, N, target, inputGrad, transGrad, gradScale)
    ensures forall t :: 0 <= t < |w| ==> RowTotal(inputGrad, t, N) == gradScale
    ensures MatrixTotal(transGrad, N) == (|w| - 1) as real * gradScale
  {
    hide Sum, AlignmentTotal, AlignedAt, AlignedMoves, RowTotal, MatrixTotal;
    var Z := AlignmentTotal(w, trans, target);
    forall t | 0 <= t < |w| ensures RowTotal(inputGrad, t, N) == gradScale {
      RowTotalIs(inputGrad, t, N, Z, gradScale, c => AlignedAt(w, trans, target, t, c));
      LabelsShareAll(w, trans, N, target, t);
      CancelFactor(RowTotal(inputGrad, t, N), gradScale, Z);
    }
    var rows: int -> real := m => Sum(N, n => AlignedMoves(w, trans, target, n, m));
    forall m | 0 <= m < N ensures RowTotal(transGrad, m, N) * Z == gradScale * rows(m) {
      RowTotalIs(transGrad, m, N, Z, gradScale, n => AlignedMoves(w, trans, target, n, m));
    }
    MatrixTotalIs(transGrad, N, Z, gradScale, rows);
    AllMoves(w, trans, N, target);
    var k := (|w| - 1) as real;
    assert gradScale * (k * Z) == (k * gradScale) * Z;
    CancelFactor(MatrixTotal(transGrad, N), k * gradScale, Z);
  }

  lemma InputMeaning(w: Weights, trans: Weights, N: nat, target: seq<int>, inputGrad: array2<real>, Z: real)
    requires inputGrad.Length0 == |w| && inputGrad.Length1 == N
    requires forall t :: 0 <= t < |w| ==> InputRow(FacTrellis(w, trans, target), target, inputGrad, Z, t)
    ensures forall t, c :: 0 <= t < |w| && 0 <= c < N ==> Times(inputGrad[t, c], Z) == AlignedAt(w, trans, target, t, c)
  {
    hide Times, NodeMassWhere, AlignedAt, FacTrellis;
    forall t, c | 0 <= t < |w| && 0 <= c < N ensures Times(inputGrad[t, c], Z) == AlignedAt(w, trans, target, t, c) {
      assert InputRow(FacTrellis(w, trans, target), target, inputGrad, Z, t);
      LabelMassMeaning(w, trans, target, t, c);
    }
  }

  lemma MovesMeaning(w: Weights, trans: Weights, N: nat, target: seq<int>, transGrad: array2<real>, Z: real)
    requires |w| >= 1 && transGrad.Length0 == transGrad.Length1 == N
    requires forall m, n :: 0 <= m < N && 0 <= n < N ==>
               Times(transGrad[m, n], Z) == MovesTo(FacTrellis(w, trans, target), target, n, m, |target|)
    ensures forall m, n :: 0 <= m < N && 0 <= n < N ==>
      Times(transGrad[m, n], Z) == AlignedMoves(w, trans, target, n, m)
  {
    hide Times, AlignedMoves, FacTrellis, BufferMoves, Sum;
    forall m, n | 0 <= m < N && 0 <= n < N ensures Times(transGrad[m, n], Z) == AlignedMoves(w, trans, target, n, m) {
      BufferMovesMeaning(w, trans, target, n, m);
    }
  }

  /** The pass before the final scaling. */
  method Fill(ghost w: Weights, ghost trans: Weights, N: nat, target: seq<int>, alpha: array2<real>,
              buf1: array<real>, buf2: array<real>, inputGrad: array2<real>, transGrad: array2<real>)
    requires Shapes(w, trans, N, target, alpha) && Buffers(trans, target, buf1, buf2) && |w| >= 1
    requires forall t :: 0 <= t < |w| ==> RowDone(w, trans, target, alpha, t)
    requires inputGrad.Length0 == |w| && inputGrad.Length1 == transGrad.Length0 == transGrad.Length1 == N
    requires alpha != inputGrad && alpha != transGrad && inputGrad != transGrad
    requires {inputGrad as object, transGrad} !! {buf1 as object, buf2}
    requires forall t, c :: 0 <= t < |w| && 0 <= c < N ==> inputGrad[t, c] == 0.0
    requires forall m, n :: 0 <= m < N && 0 <= n < N ==> transGrad[m, n] == 0.0
    modifies inputGrad, transGrad
    ensures forall t, c :: 0 <= t < |w| && 0 <= c < N ==>
              Times(inputGrad[t, c], AlignmentTotal(w, trans, target)) == AlignedAt(w, trans, target, t, c)
    ensures forall m, n :: 0 <= m < N && 0 <= n < N ==>
              Times(transGrad[m, n], AlignmentTotal(w, trans, target)) == AlignedMoves(w, trans, target, n, m)
  {
    hide IsModel, Times, StayMass, MoveMass, MassRow, RowDone, AlignmentTotal, AlignedAt, AlignedMoves, NodeMassWhere,
         Sum,
         StayWeight, MoveWeight;
    ghost var tr, Z := FacTrellis(w, trans, target), AlignmentTotal(w, trans, target);
    var T, L := alpha.Length0, |target|;
    var alphaGrad := new real[T, L]((t, i) => 0.0);
    var grad1 := new real[L](i => 0.0);
    var grad2 := new real[L](i => 0.0);
    alphaGrad[T - 1, L - 1] := 1.0;
    FirstReady(w, trans, target, alphaGrad, grad1, grad2, T - 1);
    BackwardFrames(w, trans, N, target, alpha, buf1, buf2, alphaGrad, grad1, grad2, inputGrad, Z);
    label Frames:
    AddInputs(w, trans, N, target, alphaGrad, inputGrad, Z, 0);
    forall t | 0 <= t < |w| ensures InputRow(tr, target, inputGrad, Z, t) {
      if t > 0 { assert old@Frames(InputRow(tr, target, inputGrad, Z, t)); }
    }
    Scatter(tr, N, target, grad1, grad2, transGrad, Z);
    InputMeaning(w, trans, N, target, inputGrad, Z);
    MovesMeaning(w, trans, N, target, transGrad, Z);
  }

  method Scale(ghost w: Weights, ghost trans: Weights, ghost N: nat, ghost target: seq<int>, inputGrad: array2<real>,
               transGrad: array2<real>, gradScale: real)
    requires |w| >= 1 && inputGrad.Length0 == |w| && inputGrad.Length1 == transGrad.Length0 == transGrad.Length1 == N
    requires inputGrad != transGrad
    requires forall t, c :: 0 <= t < |w| && 0 <= c < N ==>
               Times(inputGrad[t, c], AlignmentTotal(w, trans, target)) == AlignedAt(w, trans, target, t, c)
    requires forall m, n :: 0 <= m < N && 0 <= n < N ==>
               Times(transGrad[m, n], AlignmentTotal(w, trans, target)) == AlignedMoves(w, trans, target, n, m)
    modifies inputGrad, transGrad
    ensures GradMeans(w, trans, N, target, inputGrad, transGrad, gradScale)
  {
    hide Times, AlignmentTotal, AlignedAt, AlignedMoves;
    ghost var Z := AlignmentTotal(w, trans, target);
    ScaleBy(inputGrad, gradScale);
    ScaleBy(transGrad, gradScale);
    forall t, c | 0 <= t < |w| && 0 <= c < N
      ensures inputGrad[t, c] * Z == gradScale * AlignedAt(w, trans, target, t, c) {
      Scaled(old(inputGrad[t, c]), gradScale, Z, AlignedAt(w, trans, target, t, c));
    }
    forall m, n | 0 <= m < N && 0 <= n < N
      ensures transGrad[m, n] * Z == gradScale * AlignedMoves(w, trans, target, n, m) {
      Scaled(old(transGrad[m, n]), gradScale, Z, AlignedMoves(w, trans, target, n, m));
    }
  }

  /** The backward pass: input gradients are gradScale times the posteriors of
      labels, transition gradients gradScale times the expected transitions. */
  method Backward(ghost w: Weights, ghost trans: Weights, N: nat, target: seq<int>, alpha: array2<real>,
                  buf1: array<real>, buf2: array<real>, gradScale: real)
    returns (inputGrad: array2<real>, transGrad: array2<real>)
    requires Shapes(w, trans, N, target, alpha) && Buffers(trans, target, buf1, buf2)
    requires forall t :: 0 <= t < |w| ==> RowDone(w, trans, target, alpha, t)
    ensures AlignmentTotal(w, trans, target) > 0.0
    ensures GradMeans(w, trans, N, target, inputGrad, transGrad, gradScale)
    ensures forall t :: 0 <= t < |w| ==> RowTotal(inputGrad, t, N) == gradScale
    ensures MatrixTotal(transGrad, N) == (|w| - 1) as real * gradScale
  {
    hide IsModel, Times, RowDone, Buffers, AlignmentTotal, AlignedAt, AlignedMoves, RowTotal, MatrixTotal;
    SomeAlignment(w, trans, N, target);
    InputShape(w, trans, N);
    inputGrad := new real[alpha.Length0, N]((t, c) => 0.0);
    transGrad := new real[N, N]((m, n) => 0.0);
    Fill(w, trans, N, target, alpha, buf1, buf2, inputGrad, transGrad);
    Scale(w, trans, N, target, inputGrad, transGrad, gradScale);
    GradTotals(w, trans, N, target, inputGrad, transGrad, gradScale);
  }
}
