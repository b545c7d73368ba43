/** What the force-alignment gradients mean, as sums over all alignments. */
module FacMeaning {
  import opened Sums
  import opened Trellises
  import opened Posteriors
  import opened Scores
  import opened Asg
  import opened AsgLoss
  import opened ForceAlignmentGrad

  function HasLabel(target: seq<int>, c: int): int -> bool {
    i => LabelAt(target, i) == c
  }

  function HasLabels(target: seq<int>, n: int, m: int): (int, int) -> bool {
    (p, i) => LabelAt(target, p) == n && LabelAt(target, i) == m
  }

  /** The summed weight of the alignments that have label c at frame t. */
  function AlignedAt(w: Weights, trans: Weights, target: seq<int>, t: nat, c: int): real {
    SumSequences(|target|, |w|,
                 a => if |a| > t && LabelAt(target, a[t]) == c then AlignedWeight(w, trans, target, a) else 0.0)
  }

  /** The summed weight of the alignments that go from label n at frame t to m at t + 1. */
  function AlignedMove(w: Weights, trans: Weights, target: seq<int>, t: nat, n: int, m: int): real {
    SumSequences(|target|, |w|,
                 a => if |a| > t + 1 && LabelAt(target, a[t]) == n && LabelAt(target, a[t + 1]) == m
                      then AlignedWeight(w, trans, target, a) else 0.0)
  }

  /** The same over all frames: every alignment counted once per such transition. */
  function AlignedMoves(w: Weights, trans: Weights, target: seq<int>, n: int, m: int): real
    requires |w| >= 1
  {
    Sum(|w| - 1, t => if t >= 0 then AlignedMove(w, trans, target, t, n, m) else 0.0)
  }

  lemma LabelMassMeaning(w: Weights, trans: Weights, target: seq<int>, t: nat, c: int)
    requires t < |w|
    ensures NodeMassWhere(FacTrellis(w, trans, target), t, HasLabel(target, c)) == AlignedAt(w, trans, target, t, c)
  {
    hide Sum, SumExtensions, PathWeight, AlignedWeight, NodeMass, LabelAt;
    var tr, keep := FacTrellis(w, trans, target), HasLabel(target, c);
    NodeMassIsPaths(tr, t, keep);
    var f: seq<int> -> real := path => if |path| > t && keep(path[t]) then PathWeight(tr, path) else 0.0;
    var g: seq<int> -> real := a => if |a| > t && LabelAt(target, a[t]) == c then AlignedWeight(w, trans, target, a)
      else 0.0;
    forall a: seq<int> | |a| == |w| ensures f(a) == g(a) { FacPath(w, trans, target, a); }
    SumExtensionsExt(|target|, [], |w|, f, g);
  }

  lemma MoveMassMeaning(w: Weights, trans: Weights, target: seq<int>, t: nat, n: int, m: int)
    requires t + 1 < |w|
    ensures EdgeMassWhere(FacTrellis(w, trans, target), t, HasLabels(target, n, m))
      == AlignedMove(w, trans, target, t, n, m)
  {
    hide Sum, SumExtensions, PathWeight, AlignedWeight, EdgeMass, LabelAt;
    var tr, keep := FacTrellis(w, trans, target), HasLabels(target, n, m);
    EdgeMassIsPaths(tr, t, keep);
    var f: seq<int> -> real := path => if |path| > t + 1 && keep(path[t], path[t + 1]) then PathWeight(tr, path)
      else 0.0;
    var g: seq<int> -> real := a => if |a| > t + 1 && LabelAt(target, a[t]) == n && LabelAt(target, a[t + 1]) == m
                                    then AlignedWeight(w, trans, target, a) else 0.0;
    forall a: seq<int> | |a| == |w| ensures f(a) == g(a) { FacPath(w, trans, target, a); }
    SumExtensionsExt(|target|, [], |w|, f, g);
  }

  /** The labels of a frame share the whole total. */
  lemma LabelsShareAll(w: Weights, trans: Weights, N: nat, target: seq<int>, t: nat)
    requires IsTarget(target, N) && t < |w|
    ensures Sum(N, c => AlignedAt(w, trans, target, t, c)) == AlignmentTotal(w, trans, target)
  {
    hide Sum, NodeMass, AlignedAt, AlignmentTotal;
    var tr, L := FacTrellis(w, trans, target), |target|;
    var at: (int, int) -> real := (c, i) => if LabelAt(target, i) == c then NodeMass(tr, t, i) else 0.0;
    forall i | 0 <= i < L ensures Sum(N, c => at(c, i)) == NodeMass(tr, t, i) {
      var f: int -> real := c => at(c, i);
      assert LabelAt(target, i) == target[i];
      SumPick(N, target[i], f);
    }
    forall c ensures AlignedAt(w, trans, target, t, c) == Sum(L, i => at(c, i)) {
      LabelMassMeaning(w, trans, target, t, c);
      SumExt(L, s => if HasLabel(target, c)(s) then NodeMass(tr, t, s) else 0.0, i => at(c, i));
    }
    SumExt(N, c => AlignedAt(w, trans, target, t, c), c => Sum(L, i => at(c, i)));
    SumSwap(N, L, at);
    SumExt(L, i => Sum(N, c => at(c, i)), i => NodeMass(tr, t, i));
    FrameFlow(tr, t);
    FacIsAlignmentSum(w, trans, target);
  }

  // ---- Transitions

  /** What position i adds to the transition from label n to label m at frame t. */
  function MovesInto(tr: Trellis, target: seq<int>, n: int, m: int, t: nat, i: int): real {
    (if LabelAt(target, i) == m && LabelAt(target, i) == n then EdgeMass(tr, t, i, i) else 0.0)
    + (if i > 0 && LabelAt(target, i) == m && LabelAt(target, i - 1) == n then EdgeMass(tr, t, i - 1, i) else 0.0)
  }

  /** The same over all frames, from the accumulated buffers. */
  function BufferMoves(tr: Trellis, target: seq<int>, n: int, m: int, i: int): real {
    (if LabelAt(target, i) == m && LabelAt(target, i) == n then StayMass(tr, i, 0) else 0.0)
    + (if i > 0 && LabelAt(target, i) == m && LabelAt(target, i - 1) == n then MoveMass(tr, i, 0) else 0.0)
  }

  lemma FarEdge(w: Weights, trans: Weights, target: seq<int>, t: nat, p: int, i: int)
    requires i != p && i != p + 1
    ensures EdgeMass(FacTrellis(w, trans, target), t, p, i) == 0.0
  {
    hide Alpha, Beta, Move;
  }

  lemma MovesAtFrame(w: Weights, trans: Weights, target: seq<int>, n: int, m: int, t: nat)
    requires t + 1 < |w|
    ensures EdgeMassWhere(FacTrellis(w, trans, target), t, HasLabels(target, n, m))
         == Sum(|target|, i => MovesInto(FacTrellis(w, trans, target), target, n, m, t, i))
  {
    hide Sum, EdgeMass, LabelAt;
    var tr, keep, L := FacTrellis(w, trans, target), HasLabels(target, n, m), |target|;
    forall i | 0 <= i < L
      ensures Sum(L, p => if keep(p, i) then EdgeMass(tr, t, p, i) else 0.0) == MovesInto(tr, target, n, m, t, i) {
      forall p ensures i != p && i != p + 1 ==> EdgeMass(tr, t, p, i) == 0.0 {
        if i != p && i != p + 1 { FarEdge(w, trans, target, t, p, i); }
      }
      SumThree(L, p => if keep(p, i) then EdgeMass(tr, t, p, i) else 0.0, i - 1);
    }
    SumExt(L, s => Sum(L, p => if keep(p, s) then EdgeMass(tr, t, p, s) else 0.0),
           i => MovesInto(tr, target, n, m, t, i));
  }

  lemma {:induction false} MassesAreSums(tr: Trellis, i: int, u: nat)
    requires u + 1 <= tr.T
    ensures StayMass(tr, i, u) + Sum(u, t => if t >= 0 then EdgeMass(tr, t, i, i) else 0.0)
         == Sum(tr.T - 1, t => if t >= 0 then EdgeMass(tr, t, i, i) else 0.0)
    ensures MoveMass(tr, i, u) + Sum(u, t => if t >= 0 then EdgeMass(tr, t, i - 1, i) else 0.0)
         == Sum(tr.T - 1, t => if t >= 0 then EdgeMass(tr, t, i - 1, i) else 0.0)
    decreases tr.T - u
  {
    hide EdgeMass;
    if u + 1 < tr.T {
      MassesAreSums(tr, i, u + 1);
      var f: int -> real := t => if t >= 0 then EdgeMass(tr, t, i, i) else 0.0;
      var g: int -> real := t => if t >= 0 then EdgeMass(tr, t, i - 1, i) else 0.0;
      assert Sum(u + 1, f) == Sum(u, f) + f(u) && Sum(u + 1, g) == Sum(u, g) + g(u);
    }
  }

  lemma BufferMovesSum(tr: Trellis, target: seq<int>, n: int, m: int, i: int)
    requires tr.T >= 1
    ensures BufferMoves(tr, target, n, m, i)
         == Sum(tr.T - 1, t => if t >= 0 then MovesInto(tr, target, n, m, t, i) else 0.0)
  {
    hide EdgeMass, LabelAt, StayMass, MoveMass;
    MassesAreSums(tr, i, 0);
    var T := tr.T - 1;
    var stay := LabelAt(target, i) == m && LabelAt(target, i) == n;
    var move := i > 0 && LabelAt(target, i) == m && LabelAt(target, i - 1) == n;
    var f: int -> real := t => if t >= 0 then EdgeMass(tr, t, i, i) else 0.0;
    var g: int -> real := t => if t >= 0 then EdgeMass(tr, t, i - 1, i) else 0.0;
    var f': int -> real := t => if stay then f(t) else 0.0;
    var g': int -> real := t => if move then g(t) else 0.0;
    if stay { SumExt(T, f, f'); } else { SumZero(T, f'); }
    if move { SumExt(T, g, g'); } else { SumZero(T, g'); }
    SumAdd(T, f', g', t => if t >= 0 then MovesInto(tr, target, n, m, t, i) else 0.0);
  }

  /** The accumulated buffers hold exactly the transitions of all alignments. */
  lemma BufferMovesMeaning(w: Weights, trans: Weights, target: seq<int>, n: int, m: int)
    requires |w| >= 1
    ensures Sum(|target|, i => BufferMoves(FacTrellis(w, trans, target), target, n, m, i))
         == AlignedMoves(w, trans, target, n, m)
  {
    hide Sum, EdgeMass, MovesInto, BufferMoves, AlignedMove;
    var tr, T, L := FacTrellis(w, trans, target), |w| - 1, |target|;
    var at: (int, int) -> real := (t, i) => if t >= 0 then MovesInto(tr, target, n, m, t, i) else 0.0;
    forall i | 0 <= i < L ensures BufferMoves(tr, target, n, m, i) == Sum(T, t => at(t, i)) {
      BufferMovesSum(tr, target, n, m, i);
      SumExt(T, t => if t >= 0 then MovesInto(tr, target, n, m, t, i) else 0.0, t => at(t, i));
    }
    SumExt(L, i => BufferMoves(tr, target, n, m, i), i => Sum(T, t => at(t, i)));
    SumSwap(T, L, at);
    forall t | 0 <= t < T ensures AlignedMove(w, trans, target, t, n, m) == Sum(L, i => at(t, i)) {
      MovesAtFrame(w, trans, target, n, m, t);
      MoveMassMeaning(w, trans, target, t, n, m);
      SumExt(L, i => MovesInto(tr, target, n, m, t, i), i => at(t, i));
    }
    SumExt(T, t => Sum(L, i => at(t, i)), t => if t >= 0 then AlignedMove(w, trans, target, t, n, m) else 0.0);
  }

  // ---- All transitions together

  lemma MovesIntoAll(tr: Trellis, N: nat, target: seq<int>, t: nat, i: int)
    requires IsTarget(target, N) && 0 <= i < |target|
    ensures Sum(N, m => Sum(N, n => MovesInto(tr, target, n, m, t, i)))
         == EdgeMass(tr, t, i, i) + (if i > 0 then EdgeMass(tr, t, i - 1, i) else 0.0)
  {
    hide Sum, EdgeMass;
    var row: int -> real := m => Sum(N, n => MovesInto(tr, target, n, m, t, i));
    forall m | 0 <= m < N
      ensures row(m)
        == if m == target[i] then EdgeMass(tr, t, i, i) + (if i > 0 then EdgeMass(tr, t, i - 1, i) else 0.0)
           else 0.0 {
      var f: int -> real := n => MovesInto(tr, target, n, m, t, i);
      if m != target[i] {
        SumZero(N, f);
      } else {
        var stay: int -> real := n => if n == target[i] then EdgeMass(tr, t, i, i) else 0.0;
        var move: int -> real := n => if i > 0 && n == LabelAt(target, i - 1) then EdgeMass(tr, t, i - 1, i) else 0.0;
        SumPick(N, target[i], stay);
        assert i > 0 ==> LabelAt(target, i - 1) == target[i - 1];
        if i > 0 { SumPick(N, target[i - 1], move); } else { SumZero(N, move); }
        SumAdd(N, stay, move, f);
      }
    }
    SumPick(N, target[i], row);
  }

  lemma AlignedMoveIs(w: Weights, trans: Weights, target: seq<int>, t: nat, n: int, m: int)
    requires t + 1 < |w|
    ensures AlignedMove(w, trans, target, t, n, m)
         == Sum(|target|, i => MovesInto(FacTrellis(w, trans, target), target, n, m, t, i))
  {
    hide Sum, EdgeMass, MovesInto, AlignedMove;
    MovesAtFrame(w, trans, target, n, m, t);
    MoveMassMeaning(w, trans, target, t, n, m);
  }

  /** The transitions into label m at frame t, over all labels moved from. */
  lemma MovesToLabel(w: Weights, trans: Weights, N: nat, target: seq<int>, t: nat, m: int)
    requires t + 1 < |w|
    ensures Sum(N, n => AlignedMove(w, trans, target, t, n, m))
         == Sum(|target|, i => Sum(N, n => MovesInto(FacTrellis(w, trans, target), target, n, m, t, i)))
  {
    hide Sum, MovesInto, AlignedMove;
    var tr, L := FacTrellis(w, trans, target), |target|;
    var at: (int, int) -> real := (n, i) => MovesInto(tr, target, n, m, t, i);
    var f: int -> real := n => AlignedMove(w, trans, target, t, n, m);
    var g: int -> real := n => Sum(L, i => at(n, i));
    forall n | 0 <= n < N ensures f(n) == g(n) {
      AlignedMoveIs(w, trans, target, t, n, m);
      SumExt(L, i => MovesInto(tr, target, n, m, t, i), i => at(n, i));
    }
    SumExt(N, f, g);
    SumSwap(N, L, at);
    var h: int -> real := i => Sum(N, n => at(n, i));
    var k: int -> real := i => Sum(N, n => MovesInto(tr, target, n, m, t, i));
    forall i | 0 <= i < L ensures h(i) == k(i) {
      SumExt(N, n => at(n, i), n => MovesInto(tr, target, n, m, t, i));
    }
    SumExt(L, h, k);
  }

  /** The transitions of a frame carry the whole total. */
  lemma MovesOfFrame(w: Weights, trans: Weights, N: nat, target: seq<int>, t: nat)
    requires IsTarget(target, N) && t + 1 < |w|
    ensures Sum(N, m => Sum(N, n => AlignedMove(w, trans, target, t, n, m))) == AlignmentTotal(w, trans, target)
  {
    hide Sum, EdgeMass, MovesInto, AlignedMove, AlignmentTotal;
    var tr, L := FacTrellis(w, trans, target), |target|;
    var into: (int, int) -> real := (m, i) => Sum(N, n => MovesInto(tr, target, n, m, t, i));
    var f: int -> real := m => Sum(N, n => AlignedMove(w, trans, target, t, n, m));
    var g: int -> real := m => Sum(L, i => into(m, i));
    forall m | 0 <= m < N ensures f(m) == g(m) {
      MovesToLabel(w, trans, N, target, t, m);
      SumExt(L, i => Sum(N, n => MovesInto(tr, target, n, m, t, i)), i => into(m, i));
    }
    SumExt(N, f, g);
    SumSwap(N, L, into);
    var h: int -> real := i => Sum(N, m => into(m, i));
    var k: int -> real := s => Sum(L, p => EdgeMass(tr, t, p, s));
    forall i | 0 <= i < L ensures h(i) == k(i) {
      SumExt(N, m => into(m, i), m => Sum(N, n => MovesInto(tr, target, n, m, t, i)));
      MovesIntoAll(tr, N, target, t, i);
      EdgesInto(w, trans, target, t, i);
    }
    SumExt(L, h, k);
    EdgeFlow(tr, t);
    FacIsAlignmentSum(w, trans, target);
  }

  lemma EdgesInto(w: Weights, trans: Weights, target: seq<int>, t: nat, i: int)
    requires 0 <= i < |target|
    ensures var tr := FacTrellis(w, trans, target);
            Sum(|target|, p => EdgeMass(tr, t, p, i))
            == EdgeMass(tr, t, i, i) + (if i > 0 then EdgeMass(tr, t, i - 1, i) else 0.0)
  {
    hide Sum, EdgeMass;
    var tr := FacTrellis(w, trans, target);
    forall p ensures i != p && i != p + 1 ==> EdgeMass(tr, t, p, i) == 0.0 {
      if i != p && i != p + 1 { FarEdge(w, trans, target, t, p, i); }
    }
    SumThree(|target|, p => EdgeMass(tr, t, p, i), i - 1);
  }

  /** Every alignment makes |w| - 1 transitions. */
  lemma AllMoves(w: Weights, trans: Weights, N: nat, target: seq<int>)
    requires IsTarget(target, N) && |w| >= 1
    ensures Sum(N, m => Sum(N, n => AlignedMoves(w, trans, target, n, m)))
         == (|w| - 1) as real * AlignmentTotal(w, trans, target)
  {
    hide Sum, AlignedMove, AlignmentTotal;
    var T, Z := |w| - 1, AlignmentTotal(w, trans, target);
    var row: (int, int) -> real := (m, t) => if t >= 0 then Sum(N, n => AlignedMove(w, trans, target, t, n, m))
      else 0.0;
    var f: int -> real := m => Sum(N, n => AlignedMoves(w, trans, target, n, m));
    var g: int -> real := m => Sum(T, t => row(m, t));
    forall m | 0 <= m < N ensures f(m) == g(m) {
      AllMovesTo(w, trans, N, target, m);
      SumExt(T, t => if t >= 0 then Sum(N, n => AlignedMove(w, trans, target, t, n, m)) else 0.0, t => row(m, t));
    }
    SumExt(N, f, g);
    SumSwap(N, T, row);
    var h: int -> real := t => Sum(N, m => row(m, t));
    forall t | 0 <= t < T ensures h(t) == Z {
      SumExt(N, m => row(m, t), m => Sum(N, n => AlignedMove(w, trans, target, t, n, m)));
      MovesOfFrame(w, trans, N, target, t);
    }
    SumExt(T, h, i => Z);
    SumConst(T, Z);
  }

  lemma AllMovesTo(w: Weights, trans: Weights, N: nat, target: seq<int>, m: int)
    requires |w| >= 1
    ensures Sum(N, n => AlignedMoves(w, trans, target, n, m))
         == Sum(|w| - 1, t => if t >= 0 then Sum(N, n => AlignedMove(w, trans, target, t, n, m)) else 0.0)
  {
    hide Sum, AlignedMove;
    var T := |w| - 1;
    var at: (int, int) -> real := (n, t) => if t >= 0 then AlignedMove(w, trans, target, t, n, m) else 0.0;
    var f: int -> real := n => AlignedMoves(w, trans, target, n, m);
    var g: int -> real := n => Sum(T, t => at(n, t));
    forall n | 0 <= n < N ensures f(n) == g(n) {
      SumExt(T, t => if t >= 0 then AlignedMove(w, trans, target, t, n, m) else 0.0, t => at(n, t));
    }
    SumExt(N, f, g);
    SumSwap(N, T, at);
    var h: int -> real := t => Sum(N, n => at(n, t));
    var k: int -> real := t => if t >= 0 then Sum(N, n => AlignedMove(w, trans, target, t, n, m)) else 0.0;
    forall t | 0 <= t < T ensures h(t) == k(t) {
      SumExt(N, n => at(n, t), n => AlignedMove(w, trans, target, t, n, m));
    }
    SumExt(T, h, k);
  }
}
