/** The backward pass of the full-connection criterion, for one sample. */
module FccBackward {
  import opened Sums
  import opened Matrices
  import opened Trellises
  import opened Posteriors
  import opened Scores
  import opened Asg
  import opened FullConnection

  // ---- Meaning, as sums over all label sequences

  /** The summed weight of the label sequences with label c at frame t. */
  function SequencesAt(w: Weights, trans: Weights, N: nat, t: nat, c: int): real {
    SumSequences(N, |w|, pi => if |pi| > t && pi[t] == c then WeightOf(w, trans, pi) else 0.0)
  }

  /** The summed weight of the label sequences that go from n at frame t to m at t + 1. */
  function SequencesMove(w: Weights, trans: Weights, N: nat, t: nat, n: int, m: int): real {
    SumSequences(N, |w|, pi => if |pi| > t + 1 && pi[t] == n && pi[t + 1] == m then WeightOf(w, trans, pi) else 0.0)
  }

  /** The same over the frames from u on. */
  function SequencesMoves(w: Weights, trans: Weights, N: nat, n: int, m: int, u: nat): real
    decreases |w| - u
  {
    if u + 1 >= |w| then 0.0 else SequencesMove(w, trans, N, u, n, m) + SequencesMoves(w, trans, N, n, m, u + 1)
  }

  lemma FccPath(w: Weights, trans: Weights, N: nat, pi: seq<int>)
    requires |pi| >= 1
    ensures PathWeight(FccTrellis(w, trans, N), pi) == WeightOf(w, trans, pi)
  {
    hide SequenceWeight, PrefixWeight;
    FccPrefix(w, trans, N, pi);
  }

  lemma NodeMassMeaning(w: Weights, trans: Weights, N: nat, t: nat, c: int)
    requires t < |w| && 0 <= c < N
    ensures NodeMass(FccTrellis(w, trans, N), t, c) == SequencesAt(w, trans, N, t, c)
  {
    hide Sum, SumExtensions, PathWeight, WeightOf, NodeMass;
    var tr, keep := FccTrellis(w, trans, N), (s: int) => s == c;
    NodeMassIsPaths(tr, t, keep);
    SumPick(N, c, s => if keep(s) then NodeMass(tr, t, s) else 0.0);
    var f: seq<int> -> real := path => if |path| > t && keep(path[t]) then PathWeight(tr, path) else 0.0;
    var g: seq<int> -> real := pi => if |pi| > t && pi[t] == c then WeightOf(w, trans, pi) else 0.0;
    forall pi: seq<int> | |pi| == |w| ensures f(pi) == g(pi) { FccPath(w, trans, N, pi); }
    SumExtensionsExt(N, [], |w|, f, g);
  }

  lemma EdgeMassMeaning(w: Weights, trans: Weights, N: nat, t: nat, n: int, m: int)
    requires t + 1 < |w| && 0 <= n < N && 0 <= m < N
    ensures EdgeMass(FccTrellis(w, trans, N), t, n, m) == SequencesMove(w, trans, N, t, n, m)
  {
    hide Sum, SumExtensions, PathWeight, WeightOf, EdgeMass;
    var tr, keep := FccTrellis(w, trans, N), (p: int, s: int) => p == n && s == m;
    EdgeMassIsPaths(tr, t, keep);
    OneEdge(tr, t, n, m, keep);
    var f: seq<int> -> real := path => if |path| > t + 1 && keep(path[t], path[t + 1]) then PathWeight(tr, path)
      else 0.0;
    var g: seq<int> -> real := pi => if |pi| > t + 1 && pi[t] == n && pi[t + 1] == m then WeightOf(w, trans, pi)
      else 0.0;
    forall pi: seq<int> | |pi| == |w| ensures f(pi) == g(pi) { FccPath(w, trans, N, pi); }
    SumExtensionsExt(N, [], |w|, f, g);
  }

  lemma OneEdge(tr: Trellis, t: nat, n: int, m: int, keep: (int, int) -> bool)
    requires 0 <= n < tr.S && 0 <= m < tr.S && forall p, s :: keep(p, s) <==> p == n && s == m
    ensures EdgeMassWhere(tr, t, keep) == EdgeMass(tr, t, n, m)
  {
    hide Sum, EdgeMass;
    var rows: int -> real := s => Sum(tr.S, p => if keep(p, s) then EdgeMass(tr, t, p, s) else 0.0);
    forall s | 0 <= s < tr.S ensures rows(s) == if s == m then EdgeMass(tr, t, n, m) else 0.0 {
      var f: int -> real := p => if keep(p, s) then EdgeMass(tr, t, p, s) else 0.0;
      if s == m { SumPick(tr.S, n, f); } else { SumZero(tr.S, f); }
    }
    SumPick(tr.S, m, rows);
  }

  /** The labels of a frame share the whole total. */
  lemma LabelsShareAll(w: Weights, trans: Weights, N: nat, t: nat)
    requires t < |w|
    ensures Sum(N, c => SequencesAt(w, trans, N, t, c)) == FullTotal(w, trans, N)
  {
    hide Sum, NodeMass, SequencesAt, FullTotal;
    var tr := FccTrellis(w, trans, N);
    forall c | 0 <= c < N
      ensures NodeMass(tr, t, c) == SequencesAt(w, trans, N, t, c) { NodeMassMeaning(w, trans, N, t, c); }
    SumExt(N, c => SequencesAt(w, trans, N, t, c), s => NodeMass(tr, t, s));
    FrameFlow(tr, t);
    FccIsFullSum(w, trans, N);
  }

  /** The transitions from frame t on carry the whole total once per frame. */
  lemma {:induction false} MovesShareAll(w: Weights, trans: Weights, N: nat, u: nat)
    requires u < |w|
    ensures Sum(N, m => Sum(N, n => SequencesMoves(w, trans, N, n, m, u)))
         == (|w| - 1 - u) as real * FullTotal(w, trans, N)
    decreases |w| - u
  {
    hide Sum, SequencesMove, SequencesMoves, FullTotal, EdgeMass;
    var Z := FullTotal(w, trans, N);
    var all: int -> real := m => Sum(N, n => SequencesMoves(w, trans, N, n, m, u));
    if u + 1 >= |w| {
      forall m | 0 <= m < N ensures all(m) == 0.0 {
        forall n ensures SequencesMoves(w, trans, N, n, m, u) == 0.0 { MovesLast(w, trans, N, n, m, u); }
        SumZero(N, n => SequencesMoves(w, trans, N, n, m, u));
      }
      SumZero(N, all);
    } else {
      var tr := FccTrellis(w, trans, N);
      var now: int -> real := m => Sum(N, n => EdgeMass(tr, u, n, m));
      var later: int -> real := m => Sum(N, n => SequencesMoves(w, trans, N, n, m, u + 1));
      forall m | 0 <= m < N ensures all(m) == now(m) + later(m) {
        forall n | 0 <= n < N
          ensures SequencesMoves(w, trans, N, n, m, u)
            == EdgeMass(tr, u, n, m) + SequencesMoves(w, trans, N, n, m, u + 1) {
          MovesNext(w, trans, N, n, m, u);
          EdgeMassMeaning(w, trans, N, u, n, m);
        }
        SumAdd(N, n => EdgeMass(tr, u, n, m), n => SequencesMoves(w, trans, N, n, m, u + 1),
               n => SequencesMoves(w, trans, N, n, m, u));
      }
      SumAdd(N, now, later, all);
      MovesShareAll(w, trans, N, u + 1);
      EdgeFlow(tr, u);
      FccIsFullSum(w, trans, N);
      OneMore(|w| - 2 - u, Z);
    }
  }

  lemma OneMore(k: nat, Z: real)
    ensures (k + 1) as real * Z == Z + k as real * Z
  {
  }

  lemma MovesLast(w: Weights, trans: Weights, N: nat, n: int, m: int, u: nat)
    requires u + 1 >= |w|
    ensures SequencesMoves(w, trans, N, n, m, u) == 0.0
  {
  }

  lemma MovesNext(w: Weights, trans: Weights, N: nat, n: int, m: int, u: nat)
    requires u + 1 < |w|
    ensures SequencesMoves(w, trans, N, n, m, u)
         == SequencesMove(w, trans, N, u, n, m) + SequencesMoves(w, trans, N, n, m, u + 1)
  {
  }

  // ---- The pass

  function ShareOf(x: real, sum: real, g: real): real
    requires sum > 0.0
  {
    x / sum * g
  }

  lemma ShareAlgebra(buf: real, max: real, sum: real, val: real, total: real, x: real, b: real, g: real, Z: real)
    requires sum > 0.0 && buf * max == val && sum * max == total && Times(g, Z) == (total * x) * b
    ensures Times(ShareOf(buf, sum, g), Z) == val * x * b
  {
    var r := buf / sum;
    assert r * sum == buf;
    assert r * total == (r * sum) * max;
    assert (r * g) * Z == r * (g * Z);
    assert r * ((total * x) * b) == (r * total) * x * b;
  }

  /** A predecessor's share of a label's gradient is the mass of that edge. */
  lemma Share(w: Weights, trans: Weights, N: nat, v: nat, n: int, m: int, buf: real, max: real, sum: real, g: real,
              Z: real)
    requires 0 <= m < N && 0 <= n < N && sum > 0.0
    requires buf * max == Value(FccTrellis(w, trans, N), trans, v, false, m, n)
    requires sum * max == ValueTotal(FccTrellis(w, trans, N), trans, v, false, m)
    requires Times(g, Z) == NodeMass(FccTrellis(w, trans, N), v + 1, m)
    ensures Times(ShareOf(buf, sum, g), Z) == EdgeMass(FccTrellis(w, trans, N), v, n, m)
  {
    hide *;
    var tr := FccTrellis(w, trans, N);
    AlphaFromValues(w, trans, N, v, m);
    EdgeFromValue(w, trans, N, v, n, m);
    ShareAlgebra(buf, max, sum, Value(tr, trans, v, false, m, n), ValueTotal(tr, trans, v, false, m),
                 At(w, v + 1, m), Beta(tr, v + 1, m), g, Z);
  }

  lemma EdgeFromValue(w: Weights, trans: Weights, N: nat, v: nat, n: int, m: int)
    ensures var tr := FccTrellis(w, trans, N);
            && EdgeMass(tr, v, n, m) == Value(tr, trans, v, false, m, n) * At(w, v + 1, m) * Beta(tr, v + 1, m)
            && NodeMass(tr, v + 1, m) == Alpha(tr, v + 1, m) * Beta(tr, v + 1, m)
  {
    hide Alpha, Beta, At;
    var tr := FccTrellis(w, trans, N);
    MulAssoc(Alpha(tr, v, n), At(trans, m, n), At(w, v + 1, m));
  }

  ghost predicate MassRow(tr: Trellis, alphaGrad: array2<real>, Z: real, t: nat)
    requires t < alphaGrad.Length0 && alphaGrad.Length1 == tr.S
    reads alphaGrad
  {
    forall m :: 0 <= m < tr.S ==> Times(alphaGrad[t, m], Z) == NodeMass(tr, t, m)
  }

  /** Row m of the buffer becomes the masses of the edges into label m, and is added to the transition gradient. */
  method ShareRow(ghost w: Weights, trans: Weights, N: nat, alpha: array2<real>, buf: array2<real>,
                  alphaGrad: array2<real>, transGrad: array2<real>, ghost Z: real, v: nat, m: nat)
    requires Shapes(w, trans, N, alpha, buf) && v + 1 < |w| && m < N && AlphaRow(FccTrellis(w, trans, N), alpha, v)
    requires alphaGrad.Length0 == |w| && alphaGrad.Length1 == transGrad.Length0 == transGrad.Length1 == N
    requires alphaGrad != alpha && alphaGrad != buf && transGrad != alpha && transGrad != buf && transGrad != alphaGrad
    requires Times(alphaGrad[v + 1, m], Z) == NodeMass(FccTrellis(w, trans, N), v + 1, m)
    modifies buf, transGrad
    ensures forall n :: 0 <= n < N ==> Times(buf[m, n], Z) == EdgeMass(FccTrellis(w, trans, N), v, n, m)
    ensures forall n :: 0 <= n < N ==> transGrad[m, n] == old(transGrad[m, n]) + buf[m, n]
    ensures forall i, n :: 0 <= i < N && i != m && 0 <= n < N ==>
              buf[i, n] == old(buf[i, n]) && transGrad[i, n] == old(transGrad[i, n])
  {
    hide Alpha, Value, ValueTotal, Sum, Times, ShareOf, NodeMass, EdgeMass;
    ghost var tr := FccTrellis(w, trans, N);
    var maxValue, sumValue := Normalise(tr, trans, N, alpha, buf, v, false, m);
    label Normalised:
    var g := alphaGrad[v + 1, m];
    for n := 0 to N
      invariant forall k :: 0 <= k < n ==> Times(buf[m, k], Z) == EdgeMass(tr, v, k, m)
      invariant forall k :: 0 <= k < n ==> transGrad[m, k] == old(transGrad[m, k]) + buf[m, k]
      invariant forall k :: n <= k < N ==>
        buf[m, k] == old@Normalised(buf[m, k]) && transGrad[m, k] == old(transGrad[m, k])
      invariant forall i, k :: 0 <= i < N && i != m && 0 <= k < N ==>
        buf[i, k] == old(buf[i, k]) && transGrad[i, k] == old(transGrad[i, k])
    {
      Share(w, trans, N, v, n, m, buf[m, n], maxValue, sumValue, g, Z);
      buf[m, n] := ShareOf(buf[m, n], sumValue, g);
      transGrad[m, n] := transGrad[m, n] + buf[m, n];
    }
  }

  /** Column sums of the buffer are what the labels of frame v hand on. */
  method AddColumns(ghost w: Weights, ghost trans: Weights, N: nat, buf: array2<real>, alphaGrad: array2<real>,
                    ghost Z: real, v: nat)
    requires v + 1 < |w| && buf != alphaGrad && buf.Length0 == buf.Length1 == N
    requires alphaGrad.Length0 == |w| && alphaGrad.Length1 == N
    requires forall n, m :: 0 <= n < N && 0 <= m < N ==>
      Times(buf[n, m], Z) == EdgeMass(FccTrellis(w, trans, N), v, m, n)
    requires forall m :: 0 <= m < N ==> alphaGrad[v, m] == 0.0
    modifies alphaGrad
    ensures MassRow(FccTrellis(w, trans, N), alphaGrad, Z, v)
    ensures forall u, m :: 0 <= u < |w| && u != v && 0 <= m < N ==> alphaGrad[u, m] == old(alphaGrad[u, m])
  {
    hide Sum, Times, NodeMass, EdgeMass;
    ghost var tr := FccTrellis(w, trans, N);
    TimesZero(Z);
    for m := 0 to N
      invariant forall u, k :: 0 <= u < |w| && u != v && 0 <= k < N ==> alphaGrad[u, k] == old(alphaGrad[u, k])
      invariant forall k :: m <= k < N ==> alphaGrad[v, k] == 0.0
      invariant forall k :: 0 <= k < m ==> Times(alphaGrad[v, k], Z) == NodeMass(tr, v, k)
    {
      ghost var f: int -> real := n => EdgeMass(tr, v, m, n);
      SumEmpty(f);
      for n := 0 to N
        invariant forall u, k :: 0 <= u < |w| && u != v && 0 <= k < N ==> alphaGrad[u, k] == old(alphaGrad[u, k])
        invariant forall k :: m < k < N ==> alphaGrad[v, k] == 0.0
        invariant forall k :: 0 <= k < m ==> Times(alphaGrad[v, k], Z) == NodeMass(tr, v, k)
        invariant Times(alphaGrad[v, m], Z) == Sum(n, f)
      {
        SumStep(n, f);
        TimesAdd(alphaGrad[v, m], buf[n, m], Z);
        alphaGrad[v, m] := alphaGrad[v, m] + buf[n, m];
      }
      NodeOut(tr, v, m);
    }
  }

  ghost predicate MovesDone(w: Weights, trans: Weights, N: nat, transGrad: array2<real>, Z: real, u: nat)
    requires transGrad.Length0 == transGrad.Length1 == N
    reads transGrad
  {
    forall m, n :: 0 <= m < N && 0 <= n < N ==> Times(transGrad[m, n], Z) == SequencesMoves(w, trans, N, n, m, u)
  }

  ghost predicate Ready(w: Weights, trans: Weights, N: nat, alpha: array2<real>, buf: array2<real>,
                        alphaGrad: array2<real>, transGrad: array2<real>, Z: real, t: nat)
    reads alpha, alphaGrad, transGrad
  {
    && Shapes(w, trans, N, alpha, buf) && t < |w|
    && alphaGrad.Length0 == |w| && alphaGrad.Length1 == transGrad.Length0 == transGrad.Length1 == N
    && alphaGrad != alpha && alphaGrad != buf && transGrad != alpha && transGrad != buf && transGrad != alphaGrad
    && (forall u :: 0 <= u < |w| ==> AlphaRow(FccTrellis(w, trans, N), alpha, u))
    && (forall u :: t <= u < |w| ==> MassRow(FccTrellis(w, trans, N), alphaGrad, Z, u))
    && (forall u, m :: 0 <= u < t && 0 <= m < N ==> alphaGrad[u, m] == 0.0)
    && MovesDone(w, trans, N, transGrad, Z, t)
  }

  /** One frame of the pass: frame v + 1 is handed back to frame v. */
  method BackwardRow(ghost w: Weights, trans: Weights, N: nat, alpha: array2<real>, buf: array2<real>,
                     alphaGrad: array2<real>, transGrad: array2<real>, ghost Z: real, v: nat)
    requires Ready(w, trans, N, alpha, buf, alphaGrad, transGrad, Z, v + 1)
    modifies buf, alphaGrad, transGrad
    ensures Ready(w, trans, N, alpha, buf, alphaGrad, transGrad, Z, v)
  {
    hide Alpha, AlphaRow, Sum, Times, NodeMass, EdgeMass, SequencesMove, SequencesMoves, IsModel;
    ghost var tr := FccTrellis(w, trans, N);
    assert AlphaRow(tr, alpha, v) && MassRow(tr, alphaGrad, Z, v + 1);
    for m := 0 to N
      modifies buf, transGrad
      invariant forall i, n :: 0 <= i < m && 0 <= n < N ==> Times(buf[i, n], Z) == EdgeMass(tr, v, n, i)
      invariant forall i, n :: 0 <= i < m && 0 <= n < N ==> transGrad[i, n] == old(transGrad[i, n]) + buf[i, n]
      invariant forall i, n :: m <= i < N && 0 <= n < N ==> transGrad[i, n] == old(transGrad[i, n])
    {
      ShareRow(w, trans, N, alpha, buf, alphaGrad, transGrad, Z, v, m);
    }
    AddColumns(w, trans, N, buf, alphaGrad, Z, v);
    forall m, n | 0 <= m < N && 0 <= n < N ensures Times(transGrad[m, n], Z) == SequencesMoves(w, trans, N, n, m, v) {
      TimesAdd(old(transGrad[m, n]), buf[m, n], Z);
      MovesNext(w, trans, N, n, m, v);
      EdgeMassMeaning(w, trans, N, v, n, m);
    }
    forall u | v < u < |w| ensures MassRow(tr, alphaGrad, Z, u) {
      assert old(MassRow(tr, alphaGrad, Z, u));
    }
  }

  lemma LastShare(w: Weights, trans: Weights, N: nat, n: int, buf: real, max: real, sum: real)
    requires |w| >= 1 && 0 <= n < N && sum > 0.0
    requires buf * max == Value(FccTrellis(w, trans, N), trans, |w| - 1, true, 0, n)
    requires sum * max == ValueTotal(FccTrellis(w, trans, N), trans, |w| - 1, true, 0)
    ensures Times(buf / sum, FullTotal(w, trans, N)) == NodeMass(FccTrellis(w, trans, N), |w| - 1, n)
  {
    hide FullTotal, Alpha, Beta, ValueTotal;
    TotalFromValues(w, trans, N, 0);
    BetaLast(FccTrellis(w, trans, N), n);
    LastAlgebra(buf, max, sum);
  }

  lemma LastAlgebra(buf: real, max: real, sum: real)
    requires sum > 0.0
    ensures Times(buf / sum, sum * max) == buf * max
  {
    assert buf / sum * sum == buf;
  }

  /** The last frame: the end of the sequence hands back to every label. */
  method LastRow(ghost w: Weights, trans: Weights, N: nat, alpha: array2<real>, buf: array2<real>,
                 alphaGrad: array2<real>)
    requires Shapes(w, trans, N, alpha, buf) && AlphaRow(FccTrellis(w, trans, N), alpha, |w| - 1)
    requires alphaGrad != alpha && alphaGrad != buf && alphaGrad.Length0 == |w| && alphaGrad.Length1 == N
    modifies buf, alphaGrad
    ensures MassRow(FccTrellis(w, trans, N), alphaGrad, FullTotal(w, trans, N), |w| - 1)
    ensures forall u, n :: 0 <= u < |w| - 1 && 0 <= n < N ==> alphaGrad[u, n] == old(alphaGrad[u, n])
  {
    hide Alpha, Value, ValueTotal, Sum, Times, NodeMass, FullTotal;
    ghost var tr, Z := FccTrellis(w, trans, N), FullTotal(w, trans, N);
    var t := alpha.Length0 - 1;
    var maxValue, sumValue := Normalise(tr, trans, N, alpha, buf, t, true, 0);
    for n := 0 to N
      modifies alphaGrad
      invariant forall k :: 0 <= k < n ==> Times(alphaGrad[t, k], Z) == NodeMass(tr, t, k)
      invariant forall u, k :: 0 <= u < t && 0 <= k < N ==> alphaGrad[u, k] == old(alphaGrad[u, k])
    {
      LastShare(w, trans, N, n, buf[0, n], maxValue, sumValue);
      alphaGrad[t, n] := buf[0, n] / sumValue;
    }
  }

  /** The gradients are posteriors over label sequences. */
  ghost predicate GradMeans(w: Weights, trans: Weights, N: nat, inputGrad: array2<real>, transGrad: array2<real>,
                            gradScale: real)
    reads inputGrad, transGrad
  {
    && |w| >= 1 && inputGrad.Length0 == |w| && inputGrad.Length1 == transGrad.Length0 == transGrad.Length1 == N
    && (forall t, c :: 0 <= t < |w| && 0 <= c < N ==>
          inputGrad[t, c] * FullTotal(w, trans, N) == gradScale * SequencesAt(w, trans, N, t, c))
    && (forall m, n :: 0 <= m < N && 0 <= n < N ==>
          transGrad[m, n] * FullTotal(w, trans, N) == gradScale * SequencesMoves(w, trans, N, n, m, 0))
  }

  /** Each frame's input gradients sum to gradScale, all transition gradients to (T - 1) * gradScale. */
  lemma GradTotals(w: Weights, trans: Weights, N: nat, inputGrad: array2<real>, transGrad: array2<real>,
                   gradScale: real)
    requires FullTotal(w, trans, N) > 0.0 && GradMeans(w, trans, N, inputGrad, transGrad, gradScale)
    ensures forall t :: 0 <= t < |w| ==> RowTotal(inputGrad, t, N) == gradScale
    ensures MatrixTotal(transGrad, N) == (|w| - 1) as real * gradScale
  {
    hide Sum, FullTotal, SequencesAt, SequencesMoves, RowTotal, MatrixTotal;
    var Z := FullTotal(w, trans, N);
    forall t | 0 <= t < |w| ensures RowTotal(inputGrad, t, N) == gradScale {
      RowTotalIs(inputGrad, t, N, Z, gradScale, c => SequencesAt(w, trans, N, t, c));
      LabelsShareAll(w, trans, N, t);
      CancelFactor(RowTotal(inputGrad, t, N), gradScale, Z);
    }
    var rows: int -> real := m => Sum(N, n => SequencesMoves(w, trans, N, n, m, 0));
    forall m | 0 <= m < N ensures RowTotal(transGrad, m, N) * Z == gradScale * rows(m) {
      RowTotalIs(transGrad, m, N, Z, gradScale, n => SequencesMoves(w, trans, N, n, m, 0));
    }
    MatrixTotalIs(transGrad, N, Z, gradScale, rows);
    MovesShareAll(w, trans, N, 0);
    var k := (|w| - 1) as real;
    assert gradScale * (k * Z) == (k * gradScale) * Z;
    CancelFactor(MatrixTotal(transGrad, N), k * gradScale, Z);
  }

  /** The pass before the final scaling. */
  method Fill(ghost w: Weights, trans: Weights, N: nat, alpha: array2<real>, buf: array2<real>,
              alphaGrad: array2<real>, transGrad: array2<real>)
    requires Shapes(w, trans, N, alpha, buf)
    requires forall t :: 0 <= t < |w| ==> AlphaRow(FccTrellis(w, trans, N), alpha, t)
    requires alphaGrad.Length0 == |w| && alphaGrad.Length1 == transGrad.Length0 == transGrad.Length1 == N
    requires alphaGrad != alpha && alphaGrad != buf && transGrad != alpha && transGrad != buf && transGrad != alphaGrad
    requires forall t, m :: 0 <= t < |w| && 0 <= m < N ==> alphaGrad[t, m] == 0.0
    requires forall m, n :: 0 <= m < N && 0 <= n < N ==> transGrad[m, n] == 0.0
    modifies buf, alphaGrad, transGrad
    ensures FullTotal(w, trans, N) > 0.0
    ensures forall t, c :: 0 <= t < |w| && 0 <= c < N ==>
              Times(alphaGrad[t, c], FullTotal(w, trans, N)) == SequencesAt(w, trans, N, t, c)
    ensures forall m, n :: 0 <= m < N && 0 <= n < N ==>
              Times(transGrad[m, n], FullTotal(w, trans, N)) == SequencesMoves(w, trans, N, n, m, 0)
  {
    hide Alpha, AlphaRow, NodeMass, FullTotal, SequencesAt, SequencesMoves, Times, Ready, MassRow, IsModel;
    ghost var tr, Z := FccTrellis(w, trans, N), FullTotal(w, trans, N);
    var t := alpha.Length0 - 1;
    assert AlphaRow(tr, alpha, t);
    SomeSequence(w, trans, N, alpha);
    LastRow(w, trans, N, alpha, buf, alphaGrad);
    BeginReady(w, trans, N, alpha, buf, alphaGrad, transGrad, t);
    while t > 0
      invariant 0 <= t < |w| && Ready(w, trans, N, alpha, buf, alphaGrad, transGrad, Z, t)
    {
      BackwardRow(w, trans, N, alpha, buf, alphaGrad, transGrad, Z, t - 1);
      t := t - 1;
    }
    EndReady(w, trans, N, alpha, buf, alphaGrad, transGrad);
  }

  lemma SomeSequence(w: Weights, trans: Weights, N: nat, alpha: array2<real>)
    requires |w| >= 1 && N >= 1 && alpha.Length0 == |w| && alpha.Length1 == N
    requires AlphaRow(FccTrellis(w, trans, N), alpha, |w| - 1)
    ensures FullTotal(w, trans, N) > 0.0
  {
    hide Alpha, Sum, FullTotal;
    var tr, t := FccTrellis(w, trans, N), |w| - 1;
    TotalFromValues(w, trans, N, 0);
    forall n | 0 <= n < N ensures Value(tr, trans, t, true, 0, n) > 0.0 { assert alpha[t, n] == Alpha(tr, t, n) > 0.0; }
    SumPositive(N, n => Value(tr, trans, t, true, 0, n));
  }

  lemma BeginReady(w: Weights, trans: Weights, N: nat, alpha: array2<real>, buf: array2<real>,
                   alphaGrad: array2<real>, transGrad: array2<real>, t: nat)
    requires Shapes(w, trans, N, alpha, buf) && t == |w| - 1
    requires forall t :: 0 <= t < |w| ==> AlphaRow(FccTrellis(w, trans, N), alpha, t)
    requires alphaGrad.Length0 == |w| && alphaGrad.Length1 == transGrad.Length0 == transGrad.Length1 == N
    requires alphaGrad != alpha && alphaGrad != buf && transGrad != alpha && transGrad != buf && transGrad != alphaGrad
    requires MassRow(FccTrellis(w, trans, N), alphaGrad, FullTotal(w, trans, N), t)
    requires forall u, m :: 0 <= u < t && 0 <= m < N ==> alphaGrad[u, m] == 0.0
    requires forall m, n :: 0 <= m < N && 0 <= n < N ==> transGrad[m, n] == 0.0
    ensures Ready(w, trans, N, alpha, buf, alphaGrad, transGrad, FullTotal(w, trans, N), t)
  {
    hide AlphaRow, MassRow, FullTotal, Times, IsModel, SequencesMove;
    TimesZero(FullTotal(w, trans, N));
  }

  lemma EndReady(w: Weights, trans: Weights, N: nat, alpha: array2<real>, buf: array2<real>, alphaGrad: array2<real>,
                 transGrad: array2<real>)
    requires Ready(w, trans, N, alpha, buf, alphaGrad, transGrad, FullTotal(w, trans, N), 0)
    ensures forall t, c :: 0 <= t < |w| && 0 <= c < N ==>
              Times(alphaGrad[t, c], FullTotal(w, trans, N)) == SequencesAt(w, trans, N, t, c)
    ensures forall m, n :: 0 <= m < N && 0 <= n < N ==>
              Times(transGrad[m, n], FullTotal(w, trans, N)) == SequencesMoves(w, trans, N, n, m, 0)
  {
    hide AlphaRow, FullTotal, Times, IsModel, SequencesMoves, SequencesAt, NodeMass;
    forall t, c | 0 <= t < |w| && 0 <= c < N
      ensures Times(alphaGrad[t, c], FullTotal(w, trans, N)) == SequencesAt(w, trans, N, t, c) {
      assert MassRow(FccTrellis(w, trans, N), alphaGrad, FullTotal(w, trans, N), t);
      NodeMassMeaning(w, trans, N, t, c);
    }
  }

  /** The backward pass: input gradients are gradScale times the posteriors of
      labels, transition gradients gradScale times the expected transitions. */
  method Backward(ghost w: Weights, trans: Weights, N: nat, alpha: array2<real>, buf: array2<real>, gradScale: real)
    returns (inputGrad: array2<real>, transGrad: array2<real>)
    requires Shapes(w, trans, N, alpha, buf)
    requires forall t :: 0 <= t < |w| ==> AlphaRow(FccTrellis(w, trans, N), alpha, t)
    modifies buf
    ensures FullTotal(w, trans, N) > 0.0 && GradMeans(w, trans, N, inputGrad, transGrad, gradScale)
    ensures forall t :: 0 <= t < |w| ==> RowTotal(inputGrad, t, N) == gradScale
    ensures MatrixTotal(transGrad, N) == (|w| - 1) as real * gradScale
  {
    hide Times, AlphaRow, FullTotal, SequencesAt, SequencesMoves, RowTotal, MatrixTotal, IsModel;
    inputGrad := new real[alpha.Length0, N]((t, c) => 0.0);
    transGrad := new real[N, N]((m, n) => 0.0);
    Fill(w, trans, N, alpha, buf, inputGrad, transGrad);
    Scale(w, trans, N, inputGrad, transGrad, gradScale);
    GradTotals(w, trans, N, inputGrad, transGrad, gradScale);
  }

  method Scale(ghost w: Weights, ghost trans: Weights, ghost N: nat, inputGrad: array2<real>, transGrad: array2<real>,
               gradScale: real)
    requires |w| >= 1 && inputGrad.Length0 == |w| && inputGrad.Length1 == transGrad.Length0 == transGrad.Length1 == N
    requires inputGrad != transGrad
    requires forall t, c :: 0 <= t < |w| && 0 <= c < N ==>
               Times(inputGrad[t, c], FullTotal(w, trans, N)) == SequencesAt(w, trans, N, t, c)
    requires forall m, n :: 0 <= m < N && 0 <= n < N ==>
               Times(transGrad[m, n], FullTotal(w, trans, N)) == SequencesMoves(w, trans, N, n, m, 0)
    modifies inputGrad, transGrad
    ensures GradMeans(w, trans, N, inputGrad, transGrad, gradScale)
  {
    hide Times, FullTotal, SequencesAt, SequencesMoves;
    ghost var Z := FullTotal(w, trans, N);
    ScaleBy(inputGrad, gradScale);
    ScaleBy(transGrad, gradScale);
    forall t, c | 0 <= t < |w| && 0 <= c < N ensures inputGrad[t, c] * Z == gradScale * SequencesAt(w, trans, N, t, c) {
      Scaled(old(inputGrad[t, c]), gradScale, Z, SequencesAt(w, trans, N, t, c));
    }
    forall m, n | 0 <= m < N && 0 <= n < N
      ensures transGrad[m, n] * Z == gradScale * SequencesMoves(w, trans, N, n, m, 0) {
      Scaled(old(transGrad[m, n]), gradScale, Z, SequencesMoves(w, trans, N, n, m, 0));
    }
  }
}
