/** The backward pass of the force-alignment criterion. */
module ForceAlignmentGrad {
  import opened Sums
  import opened Matrices
  import opened Trellises
  import opened Scores
  import opened Asg
  import opened AsgLoss
  import opened ForceAlignment

  /** The shares of two scores in their sum, from the larger one. */
  method Shares(s1: real, s2: real) returns (d1: real, d2: real)
    requires s1 > 0.0 && s2 > 0.0
    ensures d1 * (s1 + s2) == s1 && d2 * (s1 + s2) == s2
  {
    if s1 < s2 {
      d2 := 1.0 / (1.0 + s1 / s2);
      ShareOfLarger(s2, s1);
      d1 := 1.0 - d2;
    } else {
      d1 := 1.0 / (1.0 + s2 / s1);
      ShareOfLarger(s1, s2);
      d2 := 1.0 - d1;
    }
    ShareOfOther(d1, d2, s1, s2);
  }

  lemma ShareOfLarger(a: real, b: real)
    requires a > 0.0 && b > 0.0
    ensures (1.0 / (1.0 + b / a)) * (a + b) == a
  {
    var r := 1.0 + b / a;
    assert r * a == a + b;
    assert r > 0.0;
    var d := 1.0 / r;
    assert d * r == 1.0;
    assert d * (a + b) == (d * r) * a;
  }

  lemma ShareOfOther(d1: real, d2: real, s1: real, s2: real)
    requires d1 + d2 == 1.0 && (d1 * (s1 + s2) == s1 || d2 * (s1 + s2) == s2)
    ensures d1 * (s1 + s2) == s1 && d2 * (s1 + s2) == s2
  {
    assert d1 * (s1 + s2) + d2 * (s1 + s2) == s1 + s2;
  }

  lemma EdgeShareAlgebra(d: real, g: real, Z: real, sum: real, s: real, x: real, b: real)
    requires d * sum == s && Times(g, Z) == (sum * x) * b
    ensures Times(d * g, Z) == s * x * b
  {
    assert (d * g) * Z == d * (g * Z);
    assert d * ((sum * x) * b) == (d * sum) * x * b;
  }

  lemma FacEdgeMass(w: Weights, trans: Weights, target: seq<int>, v: nat, i: int)
    ensures var tr, x := FacTrellis(w, trans, target), At(w, v + 1, LabelAt(target, i));
            && EdgeMass(tr, v, i, i) == Alpha(tr, v, i) * StayWeight(trans, target, i) * x * Beta(tr, v + 1, i)
            && EdgeMass(tr, v, i - 1, i) == Alpha(tr, v, i - 1) * MoveWeight(trans, target, i) * x * Beta(tr, v + 1, i)
            && NodeMass(tr, v + 1, i) == Alpha(tr, v + 1, i) * Beta(tr, v + 1, i)
  {
    hide Alpha, Beta, At, LabelAt, StayWeight, MoveWeight;
    FacIncoming(w, trans, target, v, i);
  }

  /** Both predecessors of a position get the mass of their edge. */
  lemma EdgeShares(w: Weights, trans: Weights, target: seq<int>, v: nat, i: int, g: real, Z: real, s1: real, s2: real,
                   d1: real, d2: real)
    requires 1 <= i < |target| && i <= v
    requires s1 == Alpha(FacTrellis(w, trans, target), v, i) * StayWeight(trans, target, i)
    requires s2 == Alpha(FacTrellis(w, trans, target), v, i - 1) * MoveWeight(trans, target, i)
    requires Times(g, Z) == NodeMass(FacTrellis(w, trans, target), v + 1, i)
    requires d1 * (s1 + s2) == s1 && d2 * (s1 + s2) == s2
    ensures Times(d1 * g, Z) == EdgeMass(FacTrellis(w, trans, target), v, i, i)
    ensures Times(d2 * g, Z) == EdgeMass(FacTrellis(w, trans, target), v, i - 1, i)
  {
    hide *;
    var tr, x := FacTrellis(w, trans, target), At(w, v + 1, LabelAt(target, i));
    FacValue(w, trans, target, v, i);
    FacEdgeMass(w, trans, target, v, i);
    EdgeShareAlgebra(d1, g, Z, s1 + s2, s1, x, Beta(tr, v + 1, i));
    EdgeShareAlgebra(d2, g, Z, s1 + s2, s2, x, Beta(tr, v + 1, i));
  }

  /** A position with one possible predecessor hands everything to it. */
  lemma SingleShare(w: Weights, trans: Weights, target: seq<int>, v: nat, i: int, g: real, Z: real)
    requires 0 <= i < |target| && Times(g, Z) == NodeMass(FacTrellis(w, trans, target), v + 1, i)
    ensures i == 0 ==> Times(1.0 * g, Z) == EdgeMass(FacTrellis(w, trans, target), v, i, i)
    ensures i == v + 1 ==> Times(1.0 * g, Z) == EdgeMass(FacTrellis(w, trans, target), v, i - 1, i)
    ensures i == v + 1 ==> Times(0.0 * g, Z) == EdgeMass(FacTrellis(w, trans, target), v, i, i)
  {
    hide Alpha, Beta, FacTrellis, StayWeight, MoveWeight, NodeMass, EdgeMass, At, LabelAt;
    FacValue(w, trans, target, v, i);
    FacEdgeMass(w, trans, target, v, i);
    if i == v + 1 { FacAlphaOutside(w, trans, target, v, i); }
  }

  // ---- What the pass accumulates

  /** The mass that stays on position i, over all frames from u on. */
  function StayMass(tr: Trellis, i: int, u: nat): real
    decreases tr.T - u
  {
    if u + 1 >= tr.T then 0.0 else EdgeMass(tr, u, i, i) + StayMass(tr, i, u + 1)
  }

  /** The mass that moves on to position i, over all frames from u on. */
  function MoveMass(tr: Trellis, i: int, u: nat): real
    decreases tr.T - u
  {
    if u + 1 >= tr.T then 0.0 else EdgeMass(tr, u, i - 1, i) + MoveMass(tr, i, u + 1)
  }

  /** Frame v of alphaGrad once the positions in done of frame v + 1 have been handed back. */
  ghost predicate AlphaPart(tr: Trellis, alphaGrad: array2<real>, Z: real, v: nat, done: set<int>)
    requires v < alphaGrad.Length0 && alphaGrad.Length1 == tr.S
    reads alphaGrad
  {
    forall p :: 0 <= p < tr.S ==>
      Times(alphaGrad[v, p], Z) == (if p in done then EdgeMass(tr, v, p, p) else 0.0)
                                   + (if p + 1 in done then EdgeMass(tr, v, p, p + 1) else 0.0)
  }

  /** The transition buffers at that point. */
  ghost predicate TransPart(tr: Trellis, grad1: array<real>, grad2: array<real>, Z: real, v: nat, done: set<int>)
    requires grad1.Length == grad2.Length == tr.S
    reads grad1, grad2
  {
    && (forall i :: 0 <= i < tr.S ==>
          Times(grad1[i], Z) == StayMass(tr, i, v + 1) + (if i in done then EdgeMass(tr, v, i, i) else 0.0))
    && (forall i :: 1 <= i < tr.S ==>
          Times(grad2[i], Z) == MoveMass(tr, i, v + 1) + (if i in done then EdgeMass(tr, v, i - 1, i) else 0.0))
  }

  ghost predicate GradShapes(tr: Trellis, alphaGrad: array2<real>, grad1: array<real>, grad2: array<real>) {
    && grad1 != grad2 && alphaGrad as object != grad1 && alphaGrad as object != grad2
    && alphaGrad.Length0 == tr.T && alphaGrad.Length1 == grad1.Length == grad2.Length == tr.S
  }

  /** Position i of frame v + 1 hands the part g1 of its gradient to itself and
      g2 to the position before it. */
  method HandBack(ghost tr: Trellis, alphaGrad: array2<real>, grad1: array<real>, grad2: array<real>, ghost Z: real,
                  v: nat, i: nat, g1: real, g2: real, ghost done: set<int>)
    requires GradShapes(tr, alphaGrad, grad1, grad2) && v + 1 < tr.T && i < tr.S && i !in done
    requires AlphaPart(tr, alphaGrad, Z, v, done) && TransPart(tr, grad1, grad2, Z, v, done)
    requires Times(g1, Z) == EdgeMass(tr, v, i, i) && (i > 0 ==> Times(g2, Z) == EdgeMass(tr, v, i - 1, i))
    modifies alphaGrad, grad1, grad2
    ensures AlphaPart(tr, alphaGrad, Z, v, done + {i}) && TransPart(tr, grad1, grad2, Z, v, done + {i})
    ensures forall u, p :: 0 <= u < tr.T && u != v && 0 <= p < tr.S ==> alphaGrad[u, p] == old(alphaGrad[u, p])
  {
    hide EdgeMass, StayMass, MoveMass, Times;
    HandAlpha(tr, alphaGrad, Z, v, i, g1, g2, done);
    HandTrans(tr, grad1, grad2, Z, v, i, g1, g2, done);
  }

  method HandAlpha(ghost tr: Trellis, alphaGrad: array2<real>, ghost Z: real, v: nat, i: nat, g1: real, g2: real,
                   ghost done: set<int>)
    requires v < alphaGrad.Length0 && alphaGrad.Length1 == tr.S && i < tr.S && i !in done
    requires AlphaPart(tr, alphaGrad, Z, v, done)
    requires Times(g1, Z) == EdgeMass(tr, v, i, i) && (i > 0 ==> Times(g2, Z) == EdgeMass(tr, v, i - 1, i))
    modifies alphaGrad
    ensures AlphaPart(tr, alphaGrad, Z, v, done + {i})
    ensures forall u, p :: 0 <= u < alphaGrad.Length0 && u != v && 0 <= p < tr.S ==>
      alphaGrad[u, p] == old(alphaGrad[u, p])
  {
    hide EdgeMass, Times;
    TimesAdd(alphaGrad[v, i], g1, Z);
    alphaGrad[v, i] := alphaGrad[v, i] + g1;
    if i > 0 {
      TimesAdd(alphaGrad[v, i - 1], g2, Z);
      alphaGrad[v, i - 1] := alphaGrad[v, i - 1] + g2;
    }
  }

  method HandTrans(ghost tr: Trellis, grad1: array<real>, grad2: array<real>, ghost Z: real, ghost v: nat, i: nat,
                   g1: real, g2: real, ghost done: set<int>)
    requires grad1 != grad2 && grad1.Length == grad2.Length == tr.S && i < tr.S && i !in done
    requires TransPart(tr, grad1, grad2, Z, v, done)
    requires Times(g1, Z) == EdgeMass(tr, v, i, i) && (i > 0 ==> Times(g2, Z) == EdgeMass(tr, v, i - 1, i))
    modifies grad1, grad2
    ensures TransPart(tr, grad1, grad2, Z, v, done + {i})
  {
    hide EdgeMass, StayMass, MoveMass, Times;
    TimesAdd(grad1[i], g1, Z);
    grad1[i] := grad1[i] + g1;
    if i > 0 {
      TimesAdd(grad2[i], g2, Z);
      grad2[i] := grad2[i] + g2;
    }
  }

  /** Row t of alphaGrad holds the mass of every position. */
  ghost predicate MassRow(tr: Trellis, alphaGrad: array2<real>, Z: real, t: nat)
    requires t < alphaGrad.Length0 && alphaGrad.Length1 == tr.S
    reads alphaGrad
  {
    forall i :: 0 <= i < tr.S ==> Times(alphaGrad[t, i], Z) == NodeMass(tr, t, i)
  }

  /** The band of frame v + 1 is all there is to hand back. */
  lemma BandIsAll(w: Weights, trans: Weights, target: seq<int>, v: nat, p: int, i: int)
    requires v + 1 < |w| && 0 <= p < |target| && 0 <= i < |target| && !InBand(|target|, |w|, v + 1, i)
    requires (i == p || i == p + 1)
    ensures EdgeMass(FacTrellis(w, trans, target), v, p, i) == 0.0
  {
    hide Alpha, Beta, Move;
    if i > v + 1 {
      FacAlphaOutside(w, trans, target, v, p);
    } else {
      FacBetaOutside(w, trans, target, v + 1, i);
    }
  }

  lemma FacNodeOut(w: Weights, trans: Weights, target: seq<int>, v: nat, p: int)
    requires v + 1 < |w| && 0 <= p < |target|
    ensures var tr := FacTrellis(w, trans, target);
            NodeMass(tr, v, p) == EdgeMass(tr, v, p, p) + (if p + 1 < |target| then EdgeMass(tr, v, p, p + 1) else 0.0)
  {
    hide Alpha, Beta, Sum, Move, NodeMass;
    var tr := FacTrellis(w, trans, target);
    NodeOut(tr, v, p);
    SumThree(|target|, s => EdgeMass(tr, v, p, s), p);
  }

  /** When the whole band has been handed back, the frame before is complete. */
  lemma FrameComplete(w: Weights, trans: Weights, target: seq<int>, alphaGrad: array2<real>, grad1: array<real>,
                      grad2: array<real>, Z: real, v: nat, done: set<int>)
    requires GradShapes(FacTrellis(w, trans, target), alphaGrad, grad1, grad2) && v + 1 < |w|
    requires AlphaPart(FacTrellis(w, trans, target), alphaGrad, Z, v, done)
    requires TransPart(FacTrellis(w, trans, target), grad1, grad2, Z, v, done)
    requires forall i :: i in done <==> InBand(|target|, |w|, v + 1, i)
    ensures MassRow(FacTrellis(w, trans, target), alphaGrad, Z, v)
    ensures v > 0 ==> TransPart(FacTrellis(w, trans, target), grad1, grad2, Z, v - 1, {})
    ensures forall i :: 0 <= i < |target| ==> Times(grad1[i], Z) == StayMass(FacTrellis(w, trans, target), i, v)
    ensures forall i :: 1 <= i < |target| ==> Times(grad2[i], Z) == MoveMass(FacTrellis(w, trans, target), i, v)
  {
    hide EdgeMass, NodeMass, Times, StayMass, MoveMass;
    var tr := FacTrellis(w, trans, target);
    forall i | 0 <= i < |target| ensures Times(alphaGrad[v, i], Z) == NodeMass(tr, v, i) {
      FacNodeOut(w, trans, target, v, i);
      DoneEdges(w, trans, target, v, i, i, done);
      DoneEdges(w, trans, target, v, i, i + 1, done);
      assert Times(alphaGrad[v, i], Z) == Handed(tr, v, i, i, done) + Handed(tr, v, i, i + 1, done);
    }
    forall i | 0 <= i < |target| ensures Times(grad1[i], Z) == StayMass(tr, i, v) {
      MassNext(tr, i, v);
      DoneEdges(w, trans, target, v, i, i, done);
      assert Times(grad1[i], Z) == StayMass(tr, i, v + 1) + Handed(tr, v, i, i, done);
    }
    forall i | 1 <= i < |target| ensures Times(grad2[i], Z) == MoveMass(tr, i, v) {
      MassNext(tr, i, v);
      DoneEdges(w, trans, target, v, i - 1, i, done);
      assert Times(grad2[i], Z) == MoveMass(tr, i, v + 1) + Handed(tr, v, i - 1, i, done);
    }
  }

  /** What position i of frame v + 1 hands back to p once it is done. */
  ghost function Handed(tr: Trellis, v: nat, p: int, i: int, done: set<int>): real {
    if i in done then EdgeMass(tr, v, p, i) else 0.0
  }

  /** With the whole band done, that is all of the edge. */
  lemma DoneEdges(w: Weights, trans: Weights, target: seq<int>, v: nat, p: int, i: int, done: set<int>)
    requires v + 1 < |w| && 0 <= p < |target| && 0 <= i <= |target| && (i == p || i == p + 1)
    requires forall k :: k in done <==> InBand(|target|, |w|, v + 1, k)
    ensures Handed(FacTrellis(w, trans, target), v, p, i, done)
      == if i < |target| then EdgeMass(FacTrellis(w, trans, target), v, p, i) else 0.0
  {
    hide EdgeMass;
    if i < |target| && i !in done { BandIsAll(w, trans, target, v, p, i); }
  }

  lemma MassNext(tr: Trellis, i: int, v: nat)
    requires v + 1 < tr.T
    ensures StayMass(tr, i, v) == EdgeMass(tr, v, i, i) + StayMass(tr, i, v + 1)
    ensures MoveMass(tr, i, v) == EdgeMass(tr, v, i - 1, i) + MoveMass(tr, i, v + 1)
  {
  }

  /** One frame of the pass: frame v + 1 is handed back to frame v. */
  method BackwardRow(ghost w: Weights, ghost trans: Weights, ghost N: nat, target: seq<int>, alpha: array2<real>,
                     buf1: array<real>, buf2: array<real>, alphaGrad: array2<real>, grad1: array<real>,
                     grad2: array<real>, ghost Z: real, v: nat)
    requires Shapes(w, trans, N, target, alpha) && Buffers(trans, target, buf1, buf2) && v + 1 < |w|
    requires GradShapes(FacTrellis(w, trans, target), alphaGrad, grad1, grad2) && alpha != alphaGrad
    requires {buf1, buf2} !! {grad1, grad2} && alphaGrad as object !in {buf1 as object, buf2}
    requires alpha as object !in {grad1 as object, grad2}
    requires RowDone(w, trans, target, alpha, v)
    requires MassRow(FacTrellis(w, trans, target), alphaGrad, Z, v + 1)
    requires AlphaPart(FacTrellis(w, trans, target), alphaGrad, Z, v, {})
    requires TransPart(FacTrellis(w, trans, target), grad1, grad2, Z, v, {})
    modifies alphaGrad, grad1, grad2
    ensures MassRow(FacTrellis(w, trans, target), alphaGrad, Z, v)
    ensures forall i :: 0 <= i < |target| ==> Times(grad1[i], Z) == StayMass(FacTrellis(w, trans, target), i, v)
    ensures forall i :: 1 <= i < |target| ==> Times(grad2[i], Z) == MoveMass(FacTrellis(w, trans, target), i, v)
    ensures v > 0 ==> TransPart(FacTrellis(w, trans, target), grad1, grad2, Z, v - 1, {})
    ensures forall u, p :: 0 <= u < |w| && u != v && 0 <= p < |target| ==> alphaGrad[u, p] == old(alphaGrad[u, p])
  {
    hide EdgeMass, NodeMass, Times, StayMass, MoveMass, AlphaPart, TransPart, IsModel, StayWeight, MoveWeight, Alpha;
    ghost var tr := FacTrellis(w, trans, target);
    var T, L, t := alpha.Length0, |target|, v + 1;
    var high := if t < L then t else L;
    var low := if T - t < L then L - (T - t) else 1;
    ghost var done := {};
    if T - t >= L {
      SingleShare(w, trans, target, v, 0, alphaGrad[t, 0], Z);
      HandBack(tr, alphaGrad, grad1, grad2, Z, v, 0, 1.0 * alphaGrad[t, 0], 0.0, done);
      done := done + {0};
    }
    if t < L {
      SingleShare(w, trans, target, v, high, alphaGrad[t, high], Z);
      HandBack(tr, alphaGrad, grad1, grad2, Z, v, high, 0.0 * alphaGrad[t, high], 1.0 * alphaGrad[t, high], done);
      done := done + {high};
    }
    for i := low to high
      invariant GradShapes(tr, alphaGrad, grad1, grad2)
      invariant AlphaPart(tr, alphaGrad, Z, v, done) && TransPart(tr, grad1, grad2, Z, v, done)
      invariant forall u, p :: 0 <= u < T && u != v && 0 <= p < L ==> alphaGrad[u, p] == old(alphaGrad[u, p])
      invariant forall j :: j in done <==> (j == 0 && T - t >= L) || (j == t && t < L) || low <= j < i
    {
      FacAlphaInside(w, trans, N, target, v, i);
      FacAlphaInside(w, trans, N, target, v, i - 1);
      BuffersPositive(w, trans, N, target, i);
      var s1 := alpha[v, i] * buf1[i];
      var s2 := alpha[v, i - 1] * buf2[i];
      var d1, d2 := Shares(s1, s2);
      var g := alphaGrad[t, i];
      EdgeShares(w, trans, target, v, i, g, Z, s1, s2, d1, d2);
      HandBack(tr, alphaGrad, grad1, grad2, Z, v, i, d1 * g, d2 * g, done);
      done := done + {i};
    }
    FrameComplete(w, trans, target, alphaGrad, grad1, grad2, Z, v, done);
  }
}
