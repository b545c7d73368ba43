/** The CTC criterion on CPU: the banded forward pass and its hand-written
    backward pass, in the exponentiated domain. State 2i + 1 of the trellis is
    target label i, even states are blanks; the blank label is N - 1. */
module Ctc {
  import opened Sums
  import opened Trellises
  import opened Transforms
  import opened Scores

  predicate IsTarget(target: seq<int>, N: nat) {
    N >= 1 && forall i :: 0 <= i < |target| ==> 0 <= target[i] < N - 1
  }

  // ---- Reference: the sum over all N^T frame labelings

  /** Product of the frame weights of a labeling. */
  function Weight(w: Weights, pi: seq<int>): real {
    if pi == [] then 1.0 else Weight(w, pi[..|pi| - 1]) * At(w, |pi| - 1, pi[|pi| - 1])
  }

  function SpellingWeight(w: Weights, N: nat, target: seq<int>, pi: seq<int>): real {
    if Collapse(pi, N - 1) == target then Weight(w, pi) else 0.0
  }

  /** The summed weight of every frame labeling that collapses to the target. */
  function LabelingTotal(w: Weights, N: nat, target: seq<int>): real {
    SumSequences(N, |w|, pi => SpellingWeight(w, N, target, pi))
  }

  // ---- The trellis

  function Label(target: seq<int>, N: nat, s: int): int {
    if s % 2 == 1 && 0 <= s / 2 < |target| then target[s / 2] else N - 1
  }

  /** A state may be skipped only when it is a blank between different labels. */
  predicate Skips(target: seq<int>, s: int) {
    3 <= s && s % 2 == 1 && s / 2 < |target| && target[s / 2] != target[s / 2 - 1]
  }

  predicate Edge(target: seq<int>, p: int, s: int) {
    s == p || s == p + 1 || (s == p + 2 && Skips(target, s))
  }

  function CtcTrellis(w: Weights, N: nat, target: seq<int>): Trellis {
    Trellis(|w|, 2 * |target| + 1,
            s => if s == 0 || s == 1 then At(w, 0, Label(target, N, s)) else 0.0,
            (t, p, s) => if Edge(target, p, s) then At(w, t, Label(target, N, s)) else 0.0,
            s => if s == 2 * |target| || s == 2 * |target| - 1 then 1.0 else 0.0)
  }

  lemma TrellisNonneg(w: Weights, N: nat, target: seq<int>)
    requires IsInput(w, N)
    ensures Nonneg(CtcTrellis(w, N, target))
  {
  }

  lemma IncomingEdge(w: Weights, N: nat, target: seq<int>, t: nat, p: int, s: int)
    ensures var tr := CtcTrellis(w, N, target);
            Incoming(tr, t, p, s) == if Edge(target, p, s) then Alpha(tr, t, p) * At(w, t + 1, Label(target, N, s))
              else 0.0
  {
    hide Alpha, At, Label, Edge;
  }

  /** The predecessors of a state, as the forward recursion sees them. */
  lemma AlphaStep(w: Weights, N: nat, target: seq<int>, t: nat, s: int)
    requires 0 <= s < 2 * |target| + 1
    ensures var tr := CtcTrellis(w, N, target);
            Alpha(tr, t + 1, s) == Incoming(tr, t, s, s)
              + (if s >= 1 then Incoming(tr, t, s - 1, s) else 0.0)
              + (if Skips(target, s) then Incoming(tr, t, s - 2, s) else 0.0)
  {
    var tr := CtcTrellis(w, N, target);
    assert Skips(target, s) ==> s >= 3;
    hide Incoming, Alpha, Sum, Skips;
    forall p ensures !Edge(target, p, s) ==> Incoming(tr, t, p, s) == 0.0 {
      IncomingEdge(w, N, target, t, p, s);
    }
    AlphaNext(tr, t, s);
    SumThree(tr.S, p => Incoming(tr, t, p, s), s - 2);
  }

  lemma OutgoingEdge(w: Weights, N: nat, target: seq<int>, t: nat, s: int, q: int)
    ensures var tr := CtcTrellis(w, N, target);
            Outgoing(tr, t, s, q) == if Edge(target, s, q) then At(w, t + 1, Label(target, N, q)) * Beta(tr, t + 1, q)
              else 0.0
  {
    hide Beta, At, Label, Edge;
  }

  /** The successors of a state, as the backward recursion sees them. */
  lemma BetaStep(w: Weights, N: nat, target: seq<int>, t: nat, s: int)
    requires t + 1 < |w| && 0 <= s < 2 * |target| + 1
    ensures var tr := CtcTrellis(w, N, target);
            Beta(tr, t, s) == Outgoing(tr, t, s, s)
              + (if s + 1 < tr.S then Outgoing(tr, t, s, s + 1) else 0.0)
              + (if Skips(target, s + 2) then Outgoing(tr, t, s, s + 2) else 0.0)
  {
    var tr := CtcTrellis(w, N, target);
    assert Skips(target, s + 2) ==> s + 2 < tr.S;
    hide Outgoing, Beta, Sum, Skips;
    forall q ensures !Edge(target, s, q) ==> Outgoing(tr, t, s, q) == 0.0 {
      OutgoingEdge(w, N, target, t, s, q);
    }
    BetaNext(tr, t, s);
    SumThree(tr.S, q => Outgoing(tr, t, s, q), s);
  }

  // ---- The trellis sums exactly the labelings that collapse to the target

  /** pi spells the first labels of the target. */
  predicate Matches(target: seq<int>, N: nat, pi: seq<int>) {
    IsPrefix(Collapse(pi, N - 1), target)
  }

  predicate IsPrefix(a: seq<int>, b: seq<int>) {
    |a| <= |b| && forall i :: 0 <= i < |a| ==> a[i] == b[i]
  }

  /** The state a matching labeling ends in. */
  function StateOf(N: nat, pi: seq<int>): int
    requires pi != []
  {
    var n := |Collapse(pi, N - 1)|;
    if pi[|pi| - 1] == N - 1 then 2 * n else 2 * n - 1
  }

  lemma {:induction false} CollapseEnd(pi: seq<int>, blank: int)
    requires pi != []
    ensures pi[|pi| - 1] != blank ==>
              Collapse(pi, blank) != [] && Collapse(pi, blank)[|Collapse(pi, blank)| - 1] == pi[|pi| - 1]
  {
    var n := |pi| - 1;
    var before, c := pi[..n], pi[n];
    assert pi == before + [c];
    CollapseSnoc(before, c, blank);
    if n > 0 && before[n - 1] == c { CollapseEnd(before, blank); }
  }

  lemma StateLabel(target: seq<int>, N: nat, pi: seq<int>)
    requires IsTarget(target, N) && pi != [] && Matches(target, N, pi)
    ensures 0 <= StateOf(N, pi) < 2 * |target| + 1 && Label(target, N, StateOf(N, pi)) == pi[|pi| - 1]
  {
    CollapseEnd(pi, N - 1);
    hide Collapse;
  }

  /** Reading one more label of a labeling that still matches follows an edge... */
  lemma MoveForward(target: seq<int>, N: nat, pi: seq<int>, c: int)
    requires IsTarget(target, N) && pi != [] && 0 <= c < N && Matches(target, N, pi + [c])
    ensures Matches(target, N, pi)
    ensures Edge(target, StateOf(N, pi), StateOf(N, pi + [c])) && Label(target, N, StateOf(N, pi + [c])) == c
  {
    CollapseSnoc(pi, c, N - 1);
    CollapseEnd(pi, N - 1);
    StateLabel(target, N, pi + [c]);
    hide Collapse;
  }

  /** ... and every edge is followed by reading the label it leads to. */
  lemma MoveAlong(target: seq<int>, N: nat, pi: seq<int>, q: int)
    requires IsTarget(target, N) && pi != [] && Matches(target, N, pi)
    requires 0 <= q < 2 * |target| + 1 && Edge(target, StateOf(N, pi), q)
    ensures var next := pi + [Label(target, N, q)]; Matches(target, N, next) && StateOf(N, next) == q
  {
    CollapseSnoc(pi, Label(target, N, q), N - 1);
    CollapseEnd(pi, N - 1);
    hide Collapse;
  }

  /** What a labeling is owed through reading c at the next frame. */
  function LabelOut(w: Weights, N: nat, target: seq<int>, pi: seq<int>, c: int): real
    requires pi != []
  {
    if Matches(target, N, pi + [c])
    then Outgoing(CtcTrellis(w, N, target), |pi| - 1, StateOf(N, pi), StateOf(N, pi + [c])) else 0.0
  }

  /** Summing over the next label is summing over the next state. */
  lemma LabelSum(w: Weights, N: nat, target: seq<int>, pi: seq<int>)
    requires IsTarget(target, N) && pi != [] && |pi| < |w| && Matches(target, N, pi)
    ensures Sum(N, c => LabelOut(w, N, target, pi, c)) == Beta(CtcTrellis(w, N, target), |pi| - 1, StateOf(N, pi))
  {
    hide Sum, Beta, Outgoing, Matches, StateOf;
    var tr, t, s := CtcTrellis(w, N, target), |pi| - 1, StateOf(N, pi);
    var g: int -> real := c => LabelOut(w, N, target, pi, c);
    StateLabel(target, N, pi);
    BetaStep(w, N, target, t, s);
    MoveAlong(target, N, pi, s);
    var a := Label(target, N, s);
    SumExtract(N, g, a);
    var g1 := Without(g, a);
    if s + 1 < tr.S {
      MoveAlong(target, N, pi, s + 1);
      var b := Label(target, N, s + 1);
      SumExtract(N, g1, b);
      var g2 := Without(g1, b);
      if Skips(target, s + 2) {
        MoveAlong(target, N, pi, s + 2);
        var d := Label(target, N, s + 2);
        SumExtract(N, g2, d);
        LabelRest(w, N, target, pi, Without(g2, d));
      } else {
        LabelRest(w, N, target, pi, g2);
      }
    } else {
      LabelRest(w, N, target, pi, g1);
    }
  }

  lemma LabelRest(w: Weights, N: nat, target: seq<int>, pi: seq<int>, g: int -> real)
    requires IsTarget(target, N) && pi != [] && Matches(target, N, pi)
    requires forall c :: 0 <= c < N ==> g(c) == LabelOut(w, N, target, pi, c) || g(c) == 0.0
    requires forall q :: 0 <= q < 2 * |target| + 1 && Edge(target, StateOf(N, pi), q) ==> g(Label(target, N, q)) == 0.0
    ensures Sum(N, g) == 0.0
  {
    hide Sum, Outgoing, Matches, StateOf, Edge, Label;
    forall c | 0 <= c < N ensures g(c) == 0.0 {
      if Matches(target, N, pi + [c]) {
        MoveForward(target, N, pi, c);
        StateLabel(target, N, pi + [c]);
      }
    }
    SumZero(N, g);
  }

  lemma WeightSnoc(w: Weights, pi: seq<int>, c: int)
    ensures Weight(w, pi + [c]) == Weight(w, pi) * At(w, |pi|, c)
  {
    hide At;
    assert (pi + [c])[..|pi|] == pi;
    WeightLast(w, pi + [c]);
    hide Weight;
  }

  lemma WeightLast(w: Weights, pi: seq<int>)
    requires pi != []
    ensures Weight(w, pi) == Weight(w, pi[..|pi| - 1]) * At(w, |pi| - 1, pi[|pi| - 1])
  {
  }

  function Spellings(w: Weights, N: nat, target: seq<int>, pi: seq<int>): real
    requires |pi| <= |w|
  {
    SumExtensions(N, pi, |w| - |pi|, rho => SpellingWeight(w, N, target, rho))
  }

  lemma SpellingsUnfold(w: Weights, N: nat, target: seq<int>, pi: seq<int>)
    requires |pi| < |w|
    ensures Spellings(w, N, target, pi) == Sum(N, c => Spellings(w, N, target, pi + [c]))
  {
    var f: seq<int> -> real := rho => SpellingWeight(w, N, target, rho);
    SumExt(N, c => SumExtensions(N, pi + [c], |w| - |pi| - 1, f), c => Spellings(w, N, target, pi + [c]));
  }

  /** The mass of a labeling prefix and of everything it can still become. */
  function Promise(w: Weights, N: nat, target: seq<int>, pi: seq<int>): real
    requires pi != []
  {
    if Matches(target, N, pi)
    then Weight(w, pi) * Beta(CtcTrellis(w, N, target), |pi| - 1, StateOf(N, pi)) else 0.0
  }

  lemma PromiseSnoc(w: Weights, N: nat, target: seq<int>, pi: seq<int>, c: int)
    requires IsTarget(target, N) && pi != [] && 0 <= c < N
    ensures Promise(w, N, target, pi + [c]) == Weight(w, pi) * LabelOut(w, N, target, pi, c)
  {
    hide Beta, At, Matches, StateOf, Weight, Outgoing;
    WeightSnoc(w, pi, c);
    if Matches(target, N, pi + [c]) {
      MoveForward(target, N, pi, c);
      OutgoingEdge(w, N, target, |pi| - 1, StateOf(N, pi), StateOf(N, pi + [c]));
      MulAssoc(Weight(w, pi), At(w, |pi|, c), Beta(CtcTrellis(w, N, target), |pi|, StateOf(N, pi + [c])));
    }
  }

  /** All completions of a labeling that spell the target. */
  lemma {:induction false} LabelingsFrom(w: Weights, N: nat, target: seq<int>, pi: seq<int>)
    requires IsTarget(target, N) && 1 <= |pi| <= |w|
    ensures Spellings(w, N, target, pi) == Promise(w, N, target, pi)
    decreases |w| - |pi|
  {
    hide Sum, Beta, Matches, StateOf, Weight, Outgoing, Spellings;
    if |pi| == |w| {
      SpelledAtEnd(w, N, target, pi);
    } else {
      var ext: int -> real := c => Spellings(w, N, target, pi + [c]);
      var out: int -> real := c => LabelOut(w, N, target, pi, c);
      forall c | 0 <= c < N ensures ext(c) == Weight(w, pi) * out(c) {
        LabelingsFrom(w, N, target, pi + [c]);
        PromiseSnoc(w, N, target, pi, c);
      }
      SpellingsUnfold(w, N, target, pi);
      SumScale(N, Weight(w, pi), out, ext);
      if Matches(target, N, pi) {
        LabelSum(w, N, target, pi);
      } else {
        forall c | 0 <= c < N ensures out(c) == 0.0 {
          if Matches(target, N, pi + [c]) { MoveForward(target, N, pi, c); }
        }
        SumZero(N, out);
      }
    }
  }

  lemma SpelledAtEnd(w: Weights, N: nat, target: seq<int>, pi: seq<int>)
    requires IsTarget(target, N) && 1 <= |pi| == |w|
    ensures Spellings(w, N, target, pi) == Promise(w, N, target, pi)
  {
    BetaLast(CtcTrellis(w, N, target), StateOf(N, pi));
    hide Collapse, Beta, Weight;
    if Matches(target, N, pi) && Collapse(pi, N - 1) != target {
      assert |Collapse(pi, N - 1)| < |target|;
    }
  }

  /** The forward total of the trellis is the summed weight of exactly the
      labelings that collapse to the target, out of all N^T of them. */
  lemma TrellisIsLabelingSum(w: Weights, N: nat, target: seq<int>)
    requires IsTarget(target, N) && |w| >= 1
    ensures Total(CtcTrellis(w, N, target)) == LabelingTotal(w, N, target)
  {
    assert LabelingTotal(w, N, target) == Spellings(w, N, target, []);
    hide Sum, Alpha, Beta, NodeMass, At, Spellings;
    var tr := CtcTrellis(w, N, target);
    var ext: int -> real := c => Spellings(w, N, target, [] + [c]);
    forall c | 0 <= c < N
      ensures ext(c) == if c == N - 1 then NodeMass(tr, 0, 0)
                        else if |target| > 0 && c == target[0] then NodeMass(tr, 0, 1) else 0.0 {
      FirstLabel(w, N, target, c);
      assert [] + [c] == [c];
    }
    SumExtract(N, ext, N - 1);
    var rest := Without(ext, N - 1);
    if |target| > 0 {
      SumExtract(N, rest, target[0]);
      SumZero(N, Without(rest, target[0]));
    } else {
      SumZero(N, rest);
    }
    SpellingsUnfold(w, N, target, []);
    FirstFrame(w, N, target);
  }

  lemma FirstFrame(w: Weights, N: nat, target: seq<int>)
    requires |w| >= 1
    ensures var tr := CtcTrellis(w, N, target);
            Total(tr) == NodeMass(tr, 0, 0) + (if |target| > 0 then NodeMass(tr, 0, 1) else 0.0)
  {
    var tr := CtcTrellis(w, N, target);
    FrameFlow(tr, 0);
    forall s ensures s >= 2 ==> NodeMass(tr, 0, s) == 0.0 { AlphaFirst(tr, s); }
    hide Sum, NodeMass;
    SumThree(tr.S, s => NodeMass(tr, 0, s), 0);
  }

  lemma FirstLabel(w: Weights, N: nat, target: seq<int>, c: int)
    requires IsTarget(target, N) && |w| >= 1 && 0 <= c < N
    ensures Spellings(w, N, target, [c])
         == if c == N - 1 then NodeMass(CtcTrellis(w, N, target), 0, 0)
            else if |target| > 0 && c == target[0] then NodeMass(CtcTrellis(w, N, target), 0, 1) else 0.0
  {
    OneLabel(N, target, c);
    WeightOne(w, c);
    hide Sum, Alpha, Beta, At, Matches, StateOf, Weight, Spellings;
    LabelingsFrom(w, N, target, [c]);
    AlphaFirst(CtcTrellis(w, N, target), StateOf(N, [c]));
  }

  lemma WeightOne(w: Weights, c: int)
    ensures Weight(w, [c]) == At(w, 0, c)
  {
    hide At;
    assert [c][..0] == [];
  }

  lemma OneLabel(N: nat, target: seq<int>, c: int)
    requires IsTarget(target, N) && 0 <= c < N
    ensures Matches(target, N, [c]) <==> c == N - 1 || (|target| > 0 && c == target[0])
    ensures StateOf(N, [c]) == if c == N - 1 then 0 else 1
  {
    hide Collapse;
    CollapseNil(N - 1);
    CollapseSnoc([], c, N - 1);
    assert [] + [c] == [c];
  }
}
