/** The hand-written CTC gradient: the backward pass over the kept alphas. */
module CtcBackward {
  import opened Sums
  import opened Trellises
  import opened Matrices
  import opened Transforms
  import opened Scores
  import opened Ctc
  import opened CtcWindow
  import opened CtcForward

  // ---- The window, walked from the last frame to the first

  /** At t == T the pass has not entered the window yet. */
  ghost predicate BackStart(target: seq<int>, T: nat, t: int, start: int) {
    if t == T then start == (if target == [] then 1 else 2 * |target|) else IsStart(target, T, t, start)
  }

  lemma StartBack(target: seq<int>, T: nat, t: int, start: int)
    requires 0 <= t < T && BackStart(target, T, t + 1, start) && |target| + Repeats(target, |target|) <= T
    ensures T - t > |target| + Repeats(target, |target|) + 1 ==> IsStart(target, T, t, start)
    ensures T - t <= |target| + Repeats(target, |target|) + 1 ==>
              && 1 <= start
              && (start % 2 == 1 && start > 1 ==> start / 2 < |target|)
              && IsStart(target, T, t, if start % 2 == 1 && start > 1 && target[start / 2] != target[start / 2 - 1]
                                       then start - 2 else start - 1)
  {
    hide Remain, Repeats;
    Ends(target);
    var L, R := |target|, Repeats(target, |target|);
    if T - t > L + R + 1 {
      if start > 0 && t + 1 < T { RemainMono(target, 0, start - 1); }
      StartFrom(target, T, t, start);
    } else {
      if start < 2 * L + 1 { RemainNext(target, start - 1); }
      if start >= 2 { RemainNext(target, start - 2); }
      var start' := if start % 2 == 1 && start > 1 && target[start / 2] != target[start / 2 - 1] then start - 2
        else start - 1;
      if start' == start - 2 && start' > 0 { RemainNext(target, start' - 1); }
      StartFrom(target, T, t, start');
    }
  }

  lemma EndBack(target: seq<int>, t: int, end: int)
    requires 0 <= t && IsEnd(target, t + 1, end)
    ensures t >= |target| + Repeats(target, |target|) ==> IsEnd(target, t, end)
    ensures t < |target| + Repeats(target, |target|) ==>
              && (end % 2 == 0 ==> end >= 4)
              && IsEnd(target, t, if end % 2 == 0 && target[end / 2 - 1] != target[end / 2 - 2] then end - 2
                       else end - 1)
  {
    hide Arrive, Repeats;
    Ends(target);
    var L, R := |target|, Repeats(target, |target|);
    if t >= L + R {
      EndFrom(target, t, end);
    } else {
      if end <= 2 * L { ArriveNext(target, end - 1); }
      assert Arrive(target, end - 1) == t + 1;
      ArriveNext(target, end - 2);
      if end >= 3 { ArriveNext(target, end - 3); }
      EndFrom(target, t, if end % 2 == 0 && target[end / 2 - 1] != target[end / 2 - 2] then end - 2 else end - 1);
    }
  }

  /** The window is never empty. */
  lemma WindowOpen(target: seq<int>, T: nat, t: int, start: int, end: int)
    requires 0 <= t < T && IsStart(target, T, t, start) && IsEnd(target, t, end)
    requires |target| + Repeats(target, |target|) <= T
    ensures start < end
  {
    if start > 0 {
      RemainNext(target, start - 1);
      if start < 2 * |target| { ArriveRemain(target, start); } else { Ends(target); }
    } else {
      Ends(target);
    }
    hide Arrive, Remain, Repeats;
  }

  lemma ArriveRemain(target: seq<int>, s: int)
    requires 0 < s < 2 * |target|
    ensures Arrive(target, s) + Remain(target, s)
         == |target| + Repeats(target, |target|) - (if s % 2 == 0 && target[s / 2] != target[s / 2 - 1] then 0 else 1)
  {
  }

  // ---- The derivative of a log-sum-exp, normalised by its largest input

  lemma SumQuotients(x: real, y: real, z: real, m: real)
    requires m > 0.0
    ensures x / m + y / m + z / m == (x + y + z) / m
  {
  }

  /** The part of scale that falls to an input x of a log-sum-exp over sum. */
  function Portion(scale: real, x: real, sum: real): real
    requires sum > 0.0
  {
    scale * (x / sum)
  }

  lemma Normalised(scale: real, x: real, s: real, m: real)
    requires s > 0.0 && m > 0.0
    ensures s / m > 0.0 && Portion(scale, x / m, s / m) == Portion(scale, x, s)
  {
    assert (x / m) * m == x && (s / m) * m == s;
    var r := x / s;
    assert r * s == x;
    assert r * (s / m) * m == (x / m) * m;
    assert r * (s / m) == x / m;
  }

  lemma WholePortion(scale: real, x: real)
    requires x > 0.0
    ensures Portion(scale, x, x) == scale
  {
    assert x / x == 1.0;
  }

  method DLogSumExp(in1: real, in2: real, in3: real, scale: real) returns (d1: real, d2: real, d3: real)
    requires in1 >= 0.0 && in2 >= 0.0 && in3 >= 0.0 && in1 + in2 + in3 > 0.0
    ensures var Z := in1 + in2 + in3;
            d1 == Portion(scale, in1, Z) && d2 == Portion(scale, in2, Z) && d3 == Portion(scale, in3, Z)
  {
    var maxIn := if in1 > in2 then in1 else in2;
    if in3 > maxIn { maxIn := in3; }
    var a, b, c := in1 / maxIn, in2 / maxIn, in3 / maxIn;
    var Z := a + b + c;
    ghost var sum := in1 + in2 + in3;
    SumQuotients(in1, in2, in3, maxIn);
    hide Portion;
    Normalised(scale, in1, sum, maxIn);
    Normalised(scale, in2, sum, maxIn);
    Normalised(scale, in3, sum, maxIn);
    d1, d2, d3 := Portion(scale, a, Z), Portion(scale, b, Z), Portion(scale, c, Z);
  }

  // ---- What the pass accumulates

  /** The mass leaving state p at frame t through the states below s. */
  function OutTo(tr: Trellis, t: nat, p: int, s: nat): real {
    Sum(s, q => EdgeMass(tr, t, p, q))
  }

  /** The mass frame t carries through states below s labelled c. */
  function LabelTo(w: Weights, N: nat, target: seq<int>, t: nat, c: int, s: nat): real {
    Sum(s, q => if Label(target, N, q) == c then NodeMass(CtcTrellis(w, N, target), t, q) else 0.0)
  }

  /** The mass of label c at frame t. */
  function LabelMass(w: Weights, N: nat, target: seq<int>, t: nat, c: int): real {
    LabelTo(w, N, target, t, c, 2 * |target| + 1)
  }

  lemma ShareAlgebra(d: real, z: real, a: real, b: real, x: real, share: real, sum: real)
    requires sum > 0.0 && d * z == -((sum * x) * b)
    requires a == share
    ensures Portion(d, share, sum) * z == -(a * x * b)
  {
    var r := share / sum;
    assert r * sum == share;
    assert (d * r) * z == (d * z) * r;
    assert (d * z) * r == -((sum * x) * b) * r;
    assert ((sum * x) * b) * r == (r * sum) * x * b;
  }

  /** One predecessor's share of a state's gradient is the mass of that edge. */
  lemma Share(w: Weights, N: nat, target: seq<int>, t: nat, p: int, s: int, d: real, Z: real, sum: real)
    requires InWindow(target, |w|, t + 1, s) && 0 <= p <= 2 * |target| && Edge(target, p, s) && sum > 0.0
    requires d * Z == -NodeMass(CtcTrellis(w, N, target), t + 1, s)
    requires Alpha(CtcTrellis(w, N, target), t + 1, s) == sum * At(w, t + 1, Label(target, N, s))
    ensures Portion(d, Band(w, N, target, t, p), sum) * Z == -EdgeMass(CtcTrellis(w, N, target), t, p, s)
  {
    hide *;
    var tr, x := CtcTrellis(w, N, target), At(w, t + 1, Label(target, N, s));
    EdgeMassAt(w, N, target, t, p, s);
    ShareAlgebra(d, Z, Alpha(tr, t, p), Beta(tr, t + 1, s), x, Band(w, N, target, t, p), sum);
  }

  lemma EdgeMassAt(w: Weights, N: nat, target: seq<int>, t: nat, p: int, s: int)
    requires InWindow(target, |w|, t + 1, s) && 0 <= p <= 2 * |target| && Edge(target, p, s)
    ensures var tr := CtcTrellis(w, N, target);
            && NodeMass(tr, t + 1, s) == Alpha(tr, t + 1, s) * Beta(tr, t + 1, s)
            && EdgeMass(tr, t, p, s) == Alpha(tr, t, p) * At(w, t + 1, Label(target, N, s)) * Beta(tr, t + 1, s)
            && Band(w, N, target, t, p) == Alpha(tr, t, p)
  {
    hide Alpha, Beta, Arrive, Remain, At, Label, Band;
    EdgeDepth(target, p, s);
    BandKept(w, N, target, t, p);
  }

  lemma BandKept(w: Weights, N: nat, target: seq<int>, t: nat, p: int)
    requires 0 <= p <= 2 * |target| && Remain(target, p) <= |w| - 1 - t
    ensures Band(w, N, target, t, p) == Alpha(CtcTrellis(w, N, target), t, p)
  {
    hide Alpha, Arrive, Remain;
    if Arrive(target, p) > t { AlphaOutside(w, N, target, t, p); }
  }

  lemma WindowState(target: seq<int>, T: nat, t: int, s: int)
    requires InWindow(target, T, t, s)
    ensures 0 <= s <= 2 * |target| && Arrive(target, s) <= t && (Skips(target, s) ==> s >= 3)
  {
  }

  /** In the window the inputs of a log-sum-exp are never all -infinity. */
  lemma InputsPositive(w: Weights, N: nat, target: seq<int>, t: nat, s: int, a: real, b: real, c: real)
    requires Positive(w, N) && IsTarget(target, N) && t + 1 < |w| && InWindow(target, |w|, t + 1, s)
    requires a == Band(w, N, target, t, s)
    requires b == if s >= 1 then Band(w, N, target, t, s - 1) else 0.0
    requires c == if Skips(target, s) then Band(w, N, target, t, s - 2) else 0.0
    ensures a >= 0.0 && b >= 0.0 && c >= 0.0 && a + b + c > 0.0
    ensures Alpha(CtcTrellis(w, N, target), t + 1, s) == (a + b + c) * At(w, t + 1, Label(target, N, s))
  {
    hide *;
    WindowState(target, |w|, t + 1, s);
    BandNonneg(w, N, target, t, s);
    if s >= 1 { BandNonneg(w, N, target, t, s - 1); }
    if Skips(target, s) { BandNonneg(w, N, target, t, s - 2); }
    BandValue(w, N, target, t, s, a, b, c);
    BandInside(w, N, target, t + 1, s);
    AlphaInside(w, N, target, t + 1, s);
    var sum, x := a + b + c, At(w, t + 1, Label(target, N, s));
    assert sum == 0.0 ==> sum * x == 0.0;
  }

  lemma BandNonneg(w: Weights, N: nat, target: seq<int>, t: nat, s: int)
    requires Positive(w, N) && IsTarget(target, N) && t < |w| && 0 <= s <= 2 * |target|
    ensures Band(w, N, target, t, s) >= 0.0
  {
    if InWindow(target, |w|, t, s) { AlphaInside(w, N, target, t, s); }
  }

  /** How one state's gradient changes what the frame before has received. */
  lemma OutStep(w: Weights, N: nat, target: seq<int>, t: nat, p: int, s: nat, d: real, Z: real, sum: real,
                before: real, after: real)
    requires InWindow(target, |w|, t + 1, s) && 0 <= p <= 2 * |target| && sum > 0.0
    requires d * Z == -NodeMass(CtcTrellis(w, N, target), t + 1, s)
    requires Alpha(CtcTrellis(w, N, target), t + 1, s) == sum * At(w, t + 1, Label(target, N, s))
    requires before * Z == -OutTo(CtcTrellis(w, N, target), t, p, s)
    requires after == before + if Edge(target, p, s) then Portion(d, Band(w, N, target, t, p), sum) else 0.0
    ensures after * Z == -OutTo(CtcTrellis(w, N, target), t, p, s + 1)
  {
    hide *;
    var tr := CtcTrellis(w, N, target);
    OutToNext(tr, t, p, s);
    if Edge(target, p, s) {
      Share(w, N, target, t, p, s, d, Z, sum);
      var share := Portion(d, Band(w, N, target, t, p), sum);
      assert (before + share) * Z == before * Z + share * Z;
    } else {
      NoEdge(w, N, target, t, p, s);
    }
  }

  lemma OutToNext(tr: Trellis, t: nat, p: int, s: nat)
    ensures OutTo(tr, t, p, s + 1) == OutTo(tr, t, p, s) + EdgeMass(tr, t, p, s)
  {
    hide EdgeMass;
  }

  lemma NoEdge(w: Weights, N: nat, target: seq<int>, t: nat, p: int, s: int)
    requires !Edge(target, p, s)
    ensures EdgeMass(CtcTrellis(w, N, target), t, p, s) == 0.0
  {
    hide Alpha, Beta, Edge;
  }

  /** Outside the window there is nothing to hand back. */
  lemma OutEnds(w: Weights, N: nat, target: seq<int>, t: nat, p: int, start: int, end: int)
    requires t + 1 < |w| && 0 <= p <= 2 * |target| && IsStart(target, |w|, t + 1, start) && IsEnd(target, t + 1, end)
    ensures OutTo(CtcTrellis(w, N, target), t, p, start) == 0.0
    ensures OutTo(CtcTrellis(w, N, target), t, p, end) == NodeMass(CtcTrellis(w, N, target), t, p)
  {
    var tr := CtcTrellis(w, N, target);
    hide Sum, Alpha, Beta, Arrive, Remain, Edge;
    forall q | 0 <= q <= 2 * |target| && !(start <= q < end) ensures EdgeMass(tr, t, p, q) == 0.0 {
      if q < start {
        BetaOutside(w, N, target, t + 1, q);
      } else if Edge(target, p, q) {
        EdgeDepth(target, p, q);
        AlphaOutside(w, N, target, t, p);
      }
    }
    NodeOut(tr, t, p);
    hide EdgeMass;
    SumTrim(end, tr.S, q => EdgeMass(tr, t, p, q));
    SumZero(start, q => EdgeMass(tr, t, p, q));
  }

  lemma LabelToNext(w: Weights, N: nat, target: seq<int>, t: nat, c: int, s: nat)
    ensures LabelTo(w, N, target, t, c, s + 1)
         == LabelTo(w, N, target, t, c, s)
            + (if Label(target, N, s) == c then NodeMass(CtcTrellis(w, N, target), t, s) else 0.0)
  {
    hide NodeMass, Label;
  }

  lemma LabelEnds(w: Weights, N: nat, target: seq<int>, t: nat, c: int, start: int, end: int)
    requires t < |w| && IsStart(target, |w|, t, start) && IsEnd(target, t, end)
    ensures LabelTo(w, N, target, t, c, start) == 0.0
    ensures LabelTo(w, N, target, t, c, end) == LabelMass(w, N, target, t, c)
  {
    var tr := CtcTrellis(w, N, target);
    hide Sum, Alpha, Beta, Arrive, Remain, Label;
    forall q | 0 <= q <= 2 * |target| && !(start <= q < end) ensures NodeMass(tr, t, q) == 0.0 {
      if q < start {
        BetaOutside(w, N, target, t, q);
      } else {
        AlphaOutside(w, N, target, t, q);
      }
    }
    hide NodeMass;
    SumTrim(end, 2 * |target| + 1, q => if Label(target, N, q) == c then NodeMass(tr, t, q) else 0.0);
    SumZero(start, q => if Label(target, N, q) == c then NodeMass(tr, t, q) else 0.0);
  }

  // ---- The pass itself

  ghost predicate Shapes(w: Weights, N: nat, target: seq<int>, alphas: array2<real>, dAlphas: array2<real>,
                         grad: array2<real>)
    reads alphas
  {
    && alphas != dAlphas && alphas != grad && dAlphas != grad
    && alphas.Length0 == dAlphas.Length0 == grad.Length0 == |w|
    && alphas.Length1 == dAlphas.Length1 == 2 * |target| + 1 && grad.Length1 == N
    && forall t :: 0 <= t < |w| ==> RowDone(w, N, target, alphas, t)
  }

  /** Row t of dAlphas holds the (negated, normalised) mass of every state. */
  ghost predicate MassRow(w: Weights, N: nat, target: seq<int>, dAlphas: array2<real>, Z: real, t: nat)
    requires t < dAlphas.Length0 && dAlphas.Length1 == 2 * |target| + 1
    reads dAlphas
  {
    forall s :: 0 <= s <= 2 * |target| ==> dAlphas[t, s] * Z == -NodeMass(CtcTrellis(w, N, target), t, s)
  }

  ghost predicate GradRow(w: Weights, N: nat, target: seq<int>, grad: array2<real>, gradScale: real, Z: real, t: nat)
    requires t < grad.Length0 && grad.Length1 == N
    reads grad
  {
    forall c :: 0 <= c < N ==> grad[t, c] * Z == -(gradScale * LabelMass(w, N, target, t, c))
  }

  /** Chain rule of one log-sum-exp: state s at frame t + 1 hands its gradient
      to its predecessors at frame t in proportion to their alphas. */
  method HandBack(target: seq<int>, alphas: array2<real>, dAlphas: array2<real>, t: nat, s: nat, ghost sum: real)
    requires alphas != dAlphas && alphas.Length0 == dAlphas.Length0 && t + 1 < alphas.Length0 && s <= 2 * |target|
    requires alphas.Length1 == dAlphas.Length1 == 2 * |target| + 1
    requires forall p :: 0 <= p <= s && Edge(target, p, s) ==> alphas[t, p] >= 0.0
    requires sum == alphas[t, s] + (if s >= 1 then alphas[t, s - 1] else 0.0)
                    + (if Skips(target, s) then alphas[t, s - 2] else 0.0)
    requires sum > 0.0
    modifies dAlphas
    ensures forall p :: 0 <= p <= 2 * |target| ==>
              dAlphas[t, p] == old(dAlphas[t, p])
                + if Edge(target, p, s) then Portion(old(dAlphas[t + 1, s]), alphas[t, p], sum) else 0.0
    ensures forall u, p :: 0 <= u < alphas.Length0 && u != t && 0 <= p <= 2 * |target| ==>
              dAlphas[u, p] == old(dAlphas[u, p])
  {
    hide Portion;
    assert Edge(target, s, s) && (s >= 1 ==> Edge(target, s - 1, s));
    var d := dAlphas[t + 1, s];
    if s == 0 {
      WholePortion(d, sum);
      dAlphas[t, s] := dAlphas[t, s] + d;
    } else if s % 2 == 0 || s == 1 || target[s / 2] == target[s / 2 - 1] {
      var d1, d2, _ := DLogSumExp(alphas[t, s], alphas[t, s - 1], 0.0, d);
      dAlphas[t, s] := dAlphas[t, s] + d1;
      dAlphas[t, s - 1] := dAlphas[t, s - 1] + d2;
    } else {
      assert Edge(target, s - 2, s);
      var d1, d2, d3 := DLogSumExp(alphas[t, s], alphas[t, s - 1], alphas[t, s - 2], d);
      dAlphas[t, s] := dAlphas[t, s] + d1;
      dAlphas[t, s - 1] := dAlphas[t, s - 1] + d2;
      dAlphas[t, s - 2] := dAlphas[t, s - 2] + d3;
    }
  }

  lemma GradStep(w: Weights, N: nat, target: seq<int>, t: nat, c: int, s: nat, d: real, gradScale: real, Z: real,
                 before: real, after: real)
    requires d * Z == -NodeMass(CtcTrellis(w, N, target), t, s)
    requires before * Z == -(gradScale * LabelTo(w, N, target, t, c, s))
    requires after == before + if Label(target, N, s) == c then d * gradScale else 0.0
    ensures after * Z == -(gradScale * LabelTo(w, N, target, t, c, s + 1))
  {
    hide *;
    LabelToNext(w, N, target, t, c, s);
    var m := NodeMass(CtcTrellis(w, N, target), t, s);
    assert (before + d * gradScale) * Z == before * Z + gradScale * (d * Z);
    assert gradScale * (d * Z) == -(gradScale * m);
    assert gradScale * (LabelTo(w, N, target, t, c, s) + m)
      == gradScale * LabelTo(w, N, target, t, c, s) + gradScale * m;
  }

  // Frame t of dAlphas once the states below s of frame t + 1 have handed back,
  // and row t of the gradient once the states below s have been added.

  ghost predicate PartialOut(w: Weights, N: nat, target: seq<int>, dAlphas: array2<real>, Z: real, t: nat, s: nat)
    requires t < dAlphas.Length0 && dAlphas.Length1 == 2 * |target| + 1
    reads dAlphas
  {
    forall p :: 0 <= p <= 2 * |target| ==> dAlphas[t, p] * Z == -OutTo(CtcTrellis(w, N, target), t, p, s)
  }

  ghost predicate PartialGrad(w: Weights, N: nat, target: seq<int>, grad: array2<real>, gradScale: real, Z: real,
                              t: nat, s: nat)
    requires t < grad.Length0 && grad.Length1 == N
    reads grad
  {
    forall c :: 0 <= c < N ==> grad[t, c] * Z == -(gradScale * LabelTo(w, N, target, t, c, s))
  }

  lemma OutBounds(w: Weights, N: nat, target: seq<int>, dAlphas: array2<real>, Z: real, t: nat, start: int, end: int)
    requires t + 1 < |w| && IsStart(target, |w|, t + 1, start) && IsEnd(target, t + 1, end)
    requires dAlphas.Length0 == |w| && dAlphas.Length1 == 2 * |target| + 1
    ensures (forall p :: 0 <= p <= 2 * |target| ==> dAlphas[t, p] == 0.0) ==>
      PartialOut(w, N, target, dAlphas, Z, t, start)
    ensures PartialOut(w, N, target, dAlphas, Z, t, end) ==> MassRow(w, N, target, dAlphas, Z, t)
  {
    hide Sum, OutTo, Arrive, Remain, NodeMass, CtcTrellis;
    forall p | 0 <= p <= 2 * |target|
      ensures OutTo(CtcTrellis(w, N, target), t, p, start) == 0.0
      ensures OutTo(CtcTrellis(w, N, target), t, p, end) == NodeMass(CtcTrellis(w, N, target), t, p) {
      OutEnds(w, N, target, t, p, start, end);
    }
  }

  lemma GradBounds(w: Weights, N: nat, target: seq<int>, grad: array2<real>, gradScale: real, Z: real, t: nat,
                   start: int, end: int)
    requires t < |w| && IsStart(target, |w|, t, start) && IsEnd(target, t, end)
    requires grad.Length0 == |w| && grad.Length1 == N
    ensures (forall c :: 0 <= c < N ==> grad[t, c] == 0.0) ==> PartialGrad(w, N, target, grad, gradScale, Z, t, start)
    ensures PartialGrad(w, N, target, grad, gradScale, Z, t, end) ==> GradRow(w, N, target, grad, gradScale, Z, t)
  {
    hide Sum, LabelTo, LabelMass, Arrive, Remain, NodeMass, CtcTrellis;
    forall c | 0 <= c < N
      ensures LabelTo(w, N, target, t, c, start) == 0.0
      ensures LabelTo(w, N, target, t, c, end) == LabelMass(w, N, target, t, c) {
      LabelEnds(w, N, target, t, c, start, end);
    }
  }

  /** All of one state's work: frame t of dAlphas has then received every state up to s. */
  method HandBackState(ghost w: Weights, ghost N: nat, target: seq<int>, alphas: array2<real>, dAlphas: array2<real>,
                       ghost Z: real, t: nat, s: nat)
    requires Positive(w, N) && IsTarget(target, N) && t + 1 < |w| && InWindow(target, |w|, t + 1, s)
    requires alphas != dAlphas && alphas.Length0 == dAlphas.Length0 == |w|
    requires alphas.Length1 == dAlphas.Length1 == 2 * |target| + 1 && RowDone(w, N, target, alphas, t)
    requires dAlphas[t + 1, s] * Z == -NodeMass(CtcTrellis(w, N, target), t + 1, s)
    requires PartialOut(w, N, target, dAlphas, Z, t, s)
    modifies dAlphas
    ensures PartialOut(w, N, target, dAlphas, Z, t, s + 1)
    ensures forall u, p :: 0 <= u < |w| && u != t && 0 <= p <= 2 * |target| ==> dAlphas[u, p] == old(dAlphas[u, p])
  {
    hide Band, OutTo, NodeMass, Arrive, Remain, CtcTrellis, At, Label, Positive, Portion;
    ghost var a, b := alphas[t, s], if s >= 1 then alphas[t, s - 1] else 0.0;
    ghost var c := if Skips(target, s) then alphas[t, s - 2] else 0.0;
    InputsPositive(w, N, target, t, s, a, b, c);
    HandBack(target, alphas, dAlphas, t, s, a + b + c);
    forall p | 0 <= p <= 2 * |target|
      ensures dAlphas[t, p] * Z == -OutTo(CtcTrellis(w, N, target), t, p, s + 1) {
      OutStep(w, N, target, t, p, s, old(dAlphas[t + 1, s]), Z, a + b + c, old(dAlphas[t, p]), dAlphas[t, p]);
    }
  }

  /** The gradient of the frame's label grows by the state's share. */
  method AddGrad(ghost w: Weights, N: nat, target: seq<int>, dAlphas: array2<real>, grad: array2<real>,
                 gradScale: real, ghost Z: real, t: nat, s: nat)
    requires IsTarget(target, N) && dAlphas != grad && s <= 2 * |target|
    requires t < dAlphas.Length0 == grad.Length0 && dAlphas.Length1 == 2 * |target| + 1 && grad.Length1 == N
    requires dAlphas[t, s] * Z == -NodeMass(CtcTrellis(w, N, target), t, s)
    requires PartialGrad(w, N, target, grad, gradScale, Z, t, s)
    modifies grad
    ensures PartialGrad(w, N, target, grad, gradScale, Z, t, s + 1)
    ensures forall u, c :: 0 <= u < grad.Length0 && u != t && 0 <= c < N ==> grad[u, c] == old(grad[u, c])
  {
    hide NodeMass, LabelTo, CtcTrellis;
    var curLabel := if s % 2 == 1 then target[s / 2] else N - 1;
    grad[t, curLabel] := grad[t, curLabel] + dAlphas[t, s] * gradScale;
    forall c | 0 <= c < N ensures grad[t, c] * Z == -(gradScale * LabelTo(w, N, target, t, c, s + 1)) {
      GradStep(w, N, target, t, c, s, dAlphas[t, s], gradScale, Z, old(grad[t, c]), grad[t, c]);
    }
  }

  /** One frame of the pass. */
  method BackwardRow(ghost w: Weights, N: nat, target: seq<int>, alphas: array2<real>, dAlphas: array2<real>,
                     grad: array2<real>, gradScale: real, ghost Z: real, t: nat, start: int, end: int)
    requires Positive(w, N) && IsTarget(target, N) && t < |w| && Shapes(w, N, target, alphas, dAlphas, grad)
    requires IsStart(target, |w|, t, start) && IsEnd(target, t, end) && start <= end
    requires MassRow(w, N, target, dAlphas, Z, t)
    requires forall u, s :: 0 <= u < t && 0 <= s <= 2 * |target| ==> dAlphas[u, s] == 0.0
    requires forall c :: 0 <= c < N ==> grad[t, c] == 0.0
    modifies dAlphas, grad
    ensures t > 0 ==> MassRow(w, N, target, dAlphas, Z, t - 1)
    ensures forall u, s :: 0 <= u < t - 1 && 0 <= s <= 2 * |target| ==> dAlphas[u, s] == 0.0
    ensures GradRow(w, N, target, grad, gradScale, Z, t)
    ensures forall u, c :: 0 <= u < |w| && u != t && 0 <= c < N ==> grad[u, c] == old(grad[u, c])
  {
    hide NodeMass, Arrive, Remain, CtcTrellis, Positive, PartialOut, PartialGrad, GradRow, RowDone;
    GradBounds(w, N, target, grad, gradScale, Z, t, start, end);
    if t > 0 { OutBounds(w, N, target, dAlphas, Z, t - 1, start, end); }
    var s: nat := start;
    while s < end
      invariant start <= s <= end
      invariant MassRow(w, N, target, dAlphas, Z, t)
      invariant forall u, j :: 0 <= u < t - 1 && 0 <= j <= 2 * |target| ==> dAlphas[u, j] == 0.0
      invariant forall u, c :: 0 <= u < |w| && u != t && 0 <= c < N ==> grad[u, c] == old(grad[u, c])
      invariant PartialGrad(w, N, target, grad, gradScale, Z, t, s)
      invariant t > 0 ==> PartialOut(w, N, target, dAlphas, Z, t - 1, s)
    {
      AddGrad(w, N, target, dAlphas, grad, gradScale, Z, t, s);
      if t > 0 {
        OutsideBand(w, N, target, t, start, end, s);
        HandBackState(w, N, target, alphas, dAlphas, Z, t - 1, s);
      }
      s := s + 1;
    }
    GradBounds(w, N, target, grad, gradScale, Z, t, start, end);
    if t > 0 { OutBounds(w, N, target, dAlphas, Z, t - 1, start, end); }
  }

  // ---- What the gradient means

  /** w with label c the only one possible at frame t. */
  function Only(w: Weights, t: nat, c: int): Weights
    requires t < |w|
  {
    w[t := seq(|w[t]|, i requires 0 <= i < |w[t]| => if i == c then w[t][i] else 0.0)]
  }

  /** The summed weight of the labelings that collapse to the target and have
      label c at frame t, out of all N^T labelings. */
  function LabelAtTotal(w: Weights, N: nat, target: seq<int>, t: nat, c: int): real {
    SumSequences(N, |w|, pi => if |pi| > t && pi[t] == c then SpellingWeight(w, N, target, pi) else 0.0)
  }

  lemma {:induction false} OnlyWeight(w: Weights, t: nat, c: int, pi: seq<int>)
    requires t < |w|
    ensures Weight(Only(w, t, c), pi) == if |pi| > t && pi[t] != c then 0.0 else Weight(w, pi)
  {
    if pi != [] {
      var n := |pi| - 1;
      OnlyWeight(w, t, c, pi[..n]);
      WeightLast(w, pi);
      WeightLast(Only(w, t, c), pi);
      assert At(Only(w, t, c), n, pi[n]) == if n == t && pi[n] != c then 0.0 else At(w, n, pi[n]);
      hide Weight, At, Only;
    }
  }

  lemma OnlyIsLabelAt(w: Weights, N: nat, target: seq<int>, t: nat, c: int)
    requires t < |w|
    ensures LabelingTotal(Only(w, t, c), N, target) == LabelAtTotal(w, N, target, t, c)
  {
    var only := Only(w, t, c);
    assert |only| == |w|;
    hide Weight, Collapse, Only;
    forall pi: seq<int> | |pi| == |w|
      ensures SpellingWeight(only, N, target, pi)
           == if |pi| > t && pi[t] == c then SpellingWeight(w, N, target, pi) else 0.0 {
      OnlyWeight(w, t, c, pi);
    }
    hide SpellingWeight, SumExtensions;
    SumExtensionsExt(N, [], |w|, pi => SpellingWeight(only, N, target, pi),
                     pi => if |pi| > t && pi[t] == c then SpellingWeight(w, N, target, pi) else 0.0);
  }

  /** The accumulated mass of a label is the weight of the labelings that use it there. */
  lemma LabelMassIsLabelAt(w: Weights, N: nat, target: seq<int>, t: nat, c: int)
    requires IsTarget(target, N) && t < |w|
    ensures LabelMass(w, N, target, t, c) == LabelAtTotal(w, N, target, t, c)
  {
    var tr, only := CtcTrellis(w, N, target), CtcTrellis(Only(w, t, c), N, target);
    var keep: int -> bool := s => Label(target, N, s) == c;
    OnlyTrellis(w, N, target, t, c, keep);
    hide Total, NodeMass, Label, Restrict, SameSteps;
    TotalLocal(Restrict(tr, t, keep), only);
    TrellisIsLabelingSum(Only(w, t, c), N, target);
    OnlyIsLabelAt(w, N, target, t, c);
    RestrictedTotal(tr, t, keep);
    SumExt(tr.S, s => if keep(s) then NodeMass(tr, t, s) else 0.0,
           q => if Label(target, N, q) == c then NodeMass(tr, t, q) else 0.0);
  }

  lemma OnlyTrellis(w: Weights, N: nat, target: seq<int>, t: nat, c: int, keep: int -> bool)
    requires t < |w| && forall s :: keep(s) <==> Label(target, N, s) == c
    ensures var kept, only := Restrict(CtcTrellis(w, N, target), t, keep), CtcTrellis(Only(w, t, c), N, target);
            && kept.T == only.T == |w| && kept.S == only.S == 2 * |target| + 1 && SameSteps(kept, only, 1, |w| - 1)
            && forall i :: 0 <= i < kept.S ==> kept.init(i) == only.init(i) && kept.fin(i) == only.fin(i)
  {
    forall u, l ensures At(Only(w, t, c), u, l) == if u == t && l != c then 0.0 else At(w, u, l) {}
    hide At, Label, Edge;
  }

  /** The labels of a frame share the whole total. */
  lemma LabelMassTotal(w: Weights, N: nat, target: seq<int>, t: nat)
    requires IsTarget(target, N) && t < |w|
    ensures Sum(N, c => LabelMass(w, N, target, t, c)) == LabelingTotal(w, N, target)
  {
    var tr := CtcTrellis(w, N, target);
    var S := 2 * |target| + 1;
    var at: (int, int) -> real := (c, q) => if Label(target, N, q) == c then NodeMass(tr, t, q) else 0.0;
    forall q | 0 <= q < S ensures Sum(N, c => at(c, q)) == NodeMass(tr, t, q) {
      var f: int -> real := c => at(c, q);
      SumExtract(N, f, Label(target, N, q));
      SumZero(N, Without(f, Label(target, N, q)));
    }
    hide NodeMass, Label, Sum;
    forall c ensures LabelMass(w, N, target, t, c) == Sum(S, q => at(c, q)) {
      SumExt(S, q => if Label(target, N, q) == c then NodeMass(tr, t, q) else 0.0, q => at(c, q));
    }
    SumExt(N, c => LabelMass(w, N, target, t, c), c => Sum(S, q => at(c, q)));
    SumSwap(N, S, at);
    SumExt(S, q => Sum(N, c => at(c, q)), q => NodeMass(tr, t, q));
    FrameFlow(tr, t);
    TrellisIsLabelingSum(w, N, target);
  }

  /** The gradients of a frame sum to -gradScale. */
  lemma FrameSum(w: Weights, N: nat, target: seq<int>, grad: array2<real>, gradScale: real, t: nat)
    requires IsTarget(target, N) && t < |w| == grad.Length0 && grad.Length1 == N && LabelingTotal(w, N, target) > 0.0
    requires GradRow(w, N, target, grad, gradScale, LabelingTotal(w, N, target), t)
    ensures RowTotal(grad, t, N) == -gradScale
  {
    hide LabelMass, LabelingTotal, RowTotal;
    var Z := LabelingTotal(w, N, target);
    forall c | 0 <= c < N ensures grad[t, c] * Z == (-gradScale) * LabelMass(w, N, target, t, c) {
      assert (-gradScale) * LabelMass(w, N, target, t, c) == -(gradScale * LabelMass(w, N, target, t, c));
    }
    RowTotalIs(grad, t, N, Z, -gradScale, c => LabelMass(w, N, target, t, c));
    LabelMassTotal(w, N, target, t);
    CancelFactor(RowTotal(grad, t, N), -gradScale, Z);
  }

  lemma NonEmpty(w: Weights, N: nat)
    requires Positive(w, N)
    ensures |w| >= 1
  {
  }

  /** Some labeling spells the target, and the last two states end it. */
  lemma LastPositive(w: Weights, N: nat, target: seq<int>)
    requires Positive(w, N) && IsTarget(target, N) && |target| + Repeats(target, |target|) <= |w|
    ensures LabelingTotal(w, N, target) > 0.0
  {
    hide *;
    NonEmpty(w, N);
    var T, L := |w|, |target|;
    var s0 := if L == 0 then 0 else 2 * L - 1;
    LastInWindow(target, T);
    AlphaInside(w, N, target, T - 1, s0);
    BandInside(w, N, target, T - 1, s0);
    BandLast(w, N, target);
    BandNonneg(w, N, target, T - 1, 2 * L);
  }

  /** A target is spelled by some labeling if and only if it fits, repeats counted. */
  lemma FitsExactly(w: Weights, N: nat, target: seq<int>)
    requires Positive(w, N) && IsTarget(target, N)
    ensures LabelingTotal(w, N, target) > 0.0 <==> |target| + Repeats(target, |target|) <= |w|
  {
    hide *;
    NonEmpty(w, N);
    if |target| + Repeats(target, |target|) <= |w| {
      LastPositive(w, N, target);
    } else {
      TooLong(w, N, target);
    }
  }

  lemma LastInWindow(target: seq<int>, T: nat)
    requires T >= 1 && |target| + Repeats(target, |target|) <= T
    ensures var s0 := if |target| == 0 then 0 else 2 * |target| - 1;
            InWindow(target, T, T - 1, s0) && Arrive(target, s0) <= T - 1
  {
    hide Arrive, Remain, Repeats;
    Ends(target);
    if |target| > 0 {
      ArriveNext(target, 2 * |target| - 1);
      RemainNext(target, 2 * |target| - 1);
    }
  }

  lemma LastMass(w: Weights, N: nat, target: seq<int>, s: int)
    requires |w| >= 1 && 0 <= s <= 2 * |target|
    ensures NodeMass(CtcTrellis(w, N, target), |w| - 1, s)
         == if s >= 2 * |target| - 1 then Band(w, N, target, |w| - 1, s) else 0.0
  {
    assert s >= 2 * |target| - 1 ==> Remain(target, s) <= 0 by {
      Ends(target);
      if s == 2 * |target| - 1 { RemainNext(target, s); }
    }
    hide Alpha, Beta, Arrive, Remain;
    BetaLast(CtcTrellis(w, N, target), s);
    if s >= 2 * |target| - 1 { BandKept(w, N, target, |w| - 1, s); }
  }

  lemma UnitPortion(x: real, sum: real)
    requires sum > 0.0
    ensures Portion(-1.0, x, sum) * sum == -x
  {
    assert (x / sum) * sum == x;
  }

  /** What the last frame has to hold. */
  ghost function LastValue(w: Weights, N: nat, target: seq<int>, s: int, Z: real): real
    requires |w| >= 1 && Z > 0.0
  {
    if s >= 2 * |target| - 1 then Portion(-1.0, Band(w, N, target, |w| - 1, s), Z) else 0.0
  }

  lemma LastShare(w: Weights, N: nat, target: seq<int>, s: int, Z: real)
    requires |w| >= 1 && 0 <= s <= 2 * |target| && Z > 0.0
    ensures LastValue(w, N, target, s, Z) * Z == -NodeMass(CtcTrellis(w, N, target), |w| - 1, s)
  {
    hide Band, NodeMass, CtcTrellis, Portion;
    LastMass(w, N, target, s);
    UnitPortion(Band(w, N, target, |w| - 1, s), Z);
  }

  /** The gradient of the last frame. */
  method LastRow(ghost w: Weights, ghost N: nat, target: seq<int>, alphas: array2<real>, dAlphas: array2<real>)
    requires Positive(w, N) && IsTarget(target, N) && |target| + Repeats(target, |target|) <= |w|
    requires alphas != dAlphas && alphas.Length0 == dAlphas.Length0 == |w|
    requires alphas.Length1 == dAlphas.Length1 == 2 * |target| + 1 && RowDone(w, N, target, alphas, |w| - 1)
    requires forall t, s :: 0 <= t < |w| && 0 <= s <= 2 * |target| ==> dAlphas[t, s] == 0.0
    modifies dAlphas
    ensures MassRow(w, N, target, dAlphas, LabelingTotal(w, N, target), |w| - 1)
    ensures forall t, s :: 0 <= t < |w| - 1 && 0 <= s <= 2 * |target| ==> dAlphas[t, s] == 0.0
  {
    hide InWindow, Repeats, NodeMass, CtcTrellis, LabelingTotal, Band, Portion, Positive, IsTarget;
    NonEmpty(w, N);
    var T, S := alphas.Length0, alphas.Length1;
    LastPositive(w, N, target);
    BandLast(w, N, target);
    BandNonneg(w, N, target, T - 1, S - 1);
    ghost var Z := LabelingTotal(w, N, target);
    if S == 1 {
      dAlphas[T - 1, S - 1] := -1.0;
      WholePortion(-1.0, Z);
    } else {
      BandNonneg(w, N, target, T - 1, S - 2);
      var d1, d2, _ := DLogSumExp(alphas[T - 1, S - 2], alphas[T - 1, S - 1], 0.0, -1.0);
      dAlphas[T - 1, S - 2] := dAlphas[T - 1, S - 2] + d1;
      dAlphas[T - 1, S - 1] := dAlphas[T - 1, S - 1] + d2;
    }
    ghost var t := T - 1;
    assert forall s :: 0 <= s < S ==> dAlphas[t, s] == LastValue(w, N, target, s, Z);
    forall s | 0 <= s < S ensures dAlphas[t, s] * Z == -NodeMass(CtcTrellis(w, N, target), t, s) {
      LastShare(w, N, target, s, Z);
    }
  }

  /** Everything after frame t is done, and frame t of dAlphas is ready. */
  ghost predicate Ready(w: Weights, N: nat, target: seq<int>, alphas: array2<real>, dAlphas: array2<real>,
                        grad: array2<real>, gradScale: real, t: int)
    reads alphas, dAlphas, grad
  {
    && -1 <= t < |w| && Shapes(w, N, target, alphas, dAlphas, grad)
    && (t >= 0 ==> MassRow(w, N, target, dAlphas, LabelingTotal(w, N, target), t))
    && (forall u, s :: 0 <= u < t && 0 <= s <= 2 * |target| ==> dAlphas[u, s] == 0.0)
    && (forall u, c :: 0 <= u <= t && 0 <= c < N ==> grad[u, c] == 0.0)
    && (forall u :: t < u < |w| ==> GradRow(w, N, target, grad, gradScale, LabelingTotal(w, N, target), u))
  }

  method BackwardFrame(ghost w: Weights, N: nat, target: seq<int>, alphas: array2<real>, dAlphas: array2<real>,
                       grad: array2<real>, gradScale: real, t: nat, start: int, end: int)
    requires Positive(w, N) && IsTarget(target, N) && Ready(w, N, target, alphas, dAlphas, grad, gradScale, t)
    requires IsStart(target, |w|, t, start) && IsEnd(target, t, end) && start <= end
    modifies dAlphas, grad
    ensures Ready(w, N, target, alphas, dAlphas, grad, gradScale, t - 1)
  {
    hide IsStart, IsEnd, RowDone, MassRow, LabelMass, LabelingTotal, Positive, IsTarget;
    ghost var Z := LabelingTotal(w, N, target);
    BackwardRow(w, N, target, alphas, dAlphas, grad, gradScale, Z, t, start, end);
    forall u | t < u < |w| ensures GradRow(w, N, target, grad, gradScale, Z, u) {
      assert old(GradRow(w, N, target, grad, gradScale, Z, u));
    }
  }

  /** The backward pass: every entry of the gradient is minus gradScale times the
      posterior of that label at that frame, so every frame sums to -gradScale. */
  method Backward(ghost w: Weights, N: nat, target: seq<int>, alphas: array2<real>, gradScale: real)
    returns (grad: array2<real>)
    requires Positive(w, N) && IsTarget(target, N) && |target| + Repeats(target, |target|) <= |w|
    requires alphas.Length0 == |w| && alphas.Length1 == 2 * |target| + 1
    requires forall t :: 0 <= t < |w| ==> RowDone(w, N, target, alphas, t)
    ensures grad.Length0 == |w| && grad.Length1 == N && LabelingTotal(w, N, target) > 0.0
    ensures forall t, c :: 0 <= t < |w| && 0 <= c < N ==>
              grad[t, c] * LabelingTotal(w, N, target) == -(gradScale * LabelAtTotal(w, N, target, t, c))
    ensures forall t :: 0 <= t < |w| ==> RowTotal(grad, t, N) == -gradScale
  {
    hide Arrive, Remain, Repeats, RowDone, GradRow, MassRow, LabelingTotal, LabelAtTotal, RowTotal, Positive;
    NonEmpty(w, N);
    var T, L := alphas.Length0, |target|;
    L := if L < T then L else T;
    var R := CountRepeats(target, L);
    L := (if L + R < T then L + R else T) - R;
    var S := 2 * L + 1;
    grad := new real[T, N]((t, c) => 0.0);
    var dAlphas := new real[T, S]((t, s) => 0.0);
    assert RowDone(w, N, target, alphas, T - 1);
    LastRow(w, N, target, alphas, dAlphas);
    var start := if S == 1 then S else S - 1;
    var end := S;
    Ends(target);
    EndFrom(target, T, end);
    BackwardFrames(w, N, target, alphas, dAlphas, grad, gradScale, L, R, start, end);
    GradMeaning(w, N, target, grad, gradScale);
  }

  /** The frames from the last to the first. */
  method BackwardFrames(ghost w: Weights, N: nat, target: seq<int>, alphas: array2<real>, dAlphas: array2<real>,
                        grad: array2<real>, gradScale: real, L: int, R: int, start0: int, end0: int)
    requires Positive(w, N) && IsTarget(target, N) && L == |target| && R == Repeats(target, L) && L + R <= |w|
    requires Ready(w, N, target, alphas, dAlphas, grad, gradScale, |w| - 1)
    requires BackStart(target, |w|, |w|, start0) && IsEnd(target, |w|, end0)
    modifies dAlphas, grad
    ensures Ready(w, N, target, alphas, dAlphas, grad, gradScale, -1)
  {
    hide Arrive, Remain, Repeats, Ready, IsStart, IsEnd, Positive;
    Framed(w, N, target, alphas, dAlphas, grad, gradScale, |w| - 1);
    var T := alphas.Length0;
    var start, end, t := start0, end0, T - 1;
    while t >= 0
      invariant -1 <= t < T == |w| && Ready(w, N, target, alphas, dAlphas, grad, gradScale, t)
      invariant BackStart(target, T, t + 1, start) && IsEnd(target, t + 1, end)
    {
      StartBack(target, T, t, start);
      EndBack(target, t, end);
      EndIn(target, t + 1, end);
      if T - t <= L + R + 1 {
        if start % 2 == 1 && start > 1 && target[start / 2] != target[start / 2 - 1] { start := start - 1; }
        start := start - 1;
      }
      if t < L + R {
        if end % 2 == 0 && target[end / 2 - 1] != target[end / 2 - 2] { end := end - 1; }
        end := end - 1;
      }
      WindowOpen(target, T, t, start, end);
      BackwardFrame(w, N, target, alphas, dAlphas, grad, gradScale, t, start, end);
      t := t - 1;
    }
  }

  lemma Framed(w: Weights, N: nat, target: seq<int>, alphas: array2<real>, dAlphas: array2<real>, grad: array2<real>,
               gradScale: real, t: int)
    requires Ready(w, N, target, alphas, dAlphas, grad, gradScale, t)
    ensures alphas.Length0 == |w|
  {
  }

  lemma EndIn(target: seq<int>, t: int, end: int)
    requires IsEnd(target, t, end)
    ensures 1 <= end <= 2 * |target| + 1
  {
  }

  lemma GradMeaning(w: Weights, N: nat, target: seq<int>, grad: array2<real>, gradScale: real)
    requires Positive(w, N) && IsTarget(target, N) && |target| + Repeats(target, |target|) <= |w|
    requires grad.Length0 == |w| && grad.Length1 == N
    requires forall t :: 0 <= t < |w| ==> GradRow(w, N, target, grad, gradScale, LabelingTotal(w, N, target), t)
    ensures LabelingTotal(w, N, target) > 0.0
    ensures forall t, c :: 0 <= t < |w| && 0 <= c < N ==>
              grad[t, c] * LabelingTotal(w, N, target) == -(gradScale * LabelAtTotal(w, N, target, t, c))
    ensures forall t :: 0 <= t < |w| ==> RowTotal(grad, t, N) == -gradScale
  {
    hide LabelMass, LabelingTotal, LabelAtTotal, RowTotal, Repeats, Positive;
    LastPositive(w, N, target);
    hide IsTarget;
    forall t | 0 <= t < |w| ensures RowTotal(grad, t, N) == -gradScale { FrameSum(w, N, target, grad, gradScale, t); }
    forall t, c | 0 <= t < |w| && 0 <= c < N
      ensures grad[t, c] * LabelingTotal(w, N, target) == -(gradScale * LabelAtTotal(w, N, target, t, c)) {
      assert GradRow(w, N, target, grad, gradScale, LabelingTotal(w, N, target), t);
      LabelMassIsLabelAt(w, N, target, t, c);
    }
  }
}
