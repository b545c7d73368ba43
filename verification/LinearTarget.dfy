/** Linear segmentation: a target spread evenly over the frames, then scored as ASG. */
module LinearTarget {
  import opened Sums
  import opened Scores
  import opened Transforms
  import opened Asg
  import opened Division
  import AsgLoss
  import Replabels

  /** The target without the negative labels that pad it at the end. */
  method GetTargetSize(labels: seq<int>) returns (size: nat)
    ensures size <= |labels| && (size > 0 ==> labels[size - 1] >= 0)
    ensures forall i :: size <= i < |labels| ==> labels[i] < 0
  {
    size := |labels|;
    while size > 0 && labels[size - 1] < 0
      invariant size <= |labels| && forall i :: size <= i < |labels| ==> labels[i] < 0
    {
      size := size - 1;
    }
  }

  /** Which target position frame t gets. */
  function Position(size: nat, T: nat, t: int): int
    requires T >= 1
  {
    t * size / T
  }

  function Positions(size: nat, T: nat): (a: seq<int>)
    ensures |a| == T && forall t :: 0 <= t < T ==> a[t] == Position(size, T, t)
  {
    seq(T, t requires 0 <= t < T => Position(size, T, t))
  }

  lemma PositionNext(size: nat, T: nat, t: nat)
    requires 1 <= size <= T
    ensures Position(size, T, t) <= Position(size, T, t + 1) <= Position(size, T, t) + 1
  {
    assert (t + 1) * size == t * size + size;
    NextQuotient(t * size, size, T);
  }

  lemma PositionEnds(size: nat, T: nat)
    requires 1 <= size <= T
    ensures Position(size, T, 0) == 0 && Position(size, T, T - 1) == size - 1
  {
    var x := (T - 1) * size;
    assert x == size * T - size == (size - 1) * T + (T - size);
    Quotient(x, size - 1, T);
  }

  /** Every target position is visited, in order. */
  lemma LinearIsAlignment(size: nat, T: nat)
    requires 1 <= size <= T
    ensures IsAlignment(Positions(size, T), size)
  {
    hide Position;
    PositionEnds(size, T);
    var a := Positions(size, T);
    forall t | 0 < t < T ensures a[t] == a[t - 1] || a[t] == a[t - 1] + 1 { PositionNext(size, T, t - 1); }
  }

  /** Frame t gets the position that lies as far into the target as t lies into the frames. */
  lemma PositionsEven(size: nat, T: nat, t: nat)
    requires 1 <= size <= T && t < T
    ensures Positions(size, T)[t] * T <= t * size < (Positions(size, T)[t] + 1) * T
  {
    Divide(t * size, T);
  }

  /** The first frame at or past target position p. */
  function FirstFrame(size: nat, T: nat, p: nat): nat
    requires size >= 1
  {
    (p * T + size - 1) / size
  }

  lemma FirstFrameMeans(size: nat, T: nat, p: nat, t: nat)
    requires size >= 1
    ensures FirstFrame(size, T, p) <= t <==> p * T <= t * size
  {
    var q := FirstFrame(size, T, p);
    Divide(p * T + size - 1, size);
    if q <= t { Scale(q, t, size); } else { Product(t, q, size); }
  }

  lemma ChunkSize(size: nat, T: nat, p: nat)
    requires size >= 1
    ensures var n := FirstFrame(size, T, p + 1) - FirstFrame(size, T, p); n == T / size || n == T / size + 1
  {
    var x := p * T + size - 1;
    var a, b := x / size, T / size;
    assert (p + 1) * T + size - 1 == x + T;
    Divide(x, size);
    Divide(T, size);
    var r := x % size + T % size;
    assert x + T == (a + b) * size + r;
    if r < size { Quotient(x + T, a + b, size); } else { Quotient(x + T, a + b + 1, size); }
  }

  /** So each target position gets a stretch of frames, all of them equally long up to one. */
  lemma PositionsHeld(size: nat, T: nat, p: nat)
    requires 1 <= size <= T && p < size
    ensures var lo, hi := FirstFrame(size, T, p), FirstFrame(size, T, p + 1);
      && lo < hi <= T && (hi - lo == T / size || hi - lo == T / size + 1)
      && forall t :: 0 <= t < T ==> (Positions(size, T)[t] == p <==> lo <= t < hi)
  {
    hide Position, FirstFrame;
    ChunkSize(size, T, p);
    WholeQuotient(T, size);
    FirstFrameMeans(size, T, p + 1, T);
    Scale(p + 1, size, T);
    var a := Positions(size, T);
    forall t | 0 <= t < T ensures a[t] == p <==> FirstFrame(size, T, p) <= t < FirstFrame(size, T, p + 1) {
      PositionsEven(size, T, t);
      FirstFrameMeans(size, T, p, t);
      FirstFrameMeans(size, T, p + 1, t);
      OnlyQuotient(a[t], p, t * size, T);
    }
  }

  lemma WholeQuotient(T: nat, size: nat)
    requires 1 <= size <= T
    ensures T / size >= 1
  {
    Divide(T, size);
    if T / size <= 0 { Scale(T / size, 0, size); }
  }

  lemma OnlyQuotient(q: int, p: int, x: int, T: nat)
    requires q * T <= x < (q + 1) * T && T >= 1
    ensures q == p <==> p * T <= x < (p + 1) * T
  {
    if q < p { Product(q, p, T); }
    if q > p { Product(p, q, T); }
  }

  lemma {:induction false} AlignmentBelow(a: seq<int>, L: nat, t: nat)
    requires IsAlignment(a, L) && t < |a|
    ensures 0 <= a[t] < L
    ensures forall u :: t <= u < |a| ==> a[t] <= a[u]
    decreases |a| - t
  {
    AlignmentUp(a, L, t);
    if t + 1 < |a| { AlignmentBelow(a, L, t + 1); }
  }

  lemma {:induction false} AlignmentUp(a: seq<int>, L: nat, t: nat)
    requires IsAlignment(a, L) && t < |a|
    ensures a[t] >= 0
  {
    if t > 0 { AlignmentUp(a, L, t - 1); }
  }

  /** Any alignment spells the target again, up to runs. */
  lemma {:induction false} SpreadSpells(target: seq<int>, a: seq<int>, n: nat)
    requires IsAlignment(a, |target|) && n < |a|
    ensures 0 <= a[n] < |target| && Uniq(Spread(target, a[..n + 1])) == Uniq(target[..a[n] + 1])
  {
    hide Uniq;
    AlignmentBelow(a, |target|, n);
    if n == 0 {
      assert Spread(target, a[..1]) == target[..1];
    } else {
      AlignmentBelow(a, |target|, n - 1);
      SpreadSpells(target, a, n - 1);
      var before := Spread(target, a[..n]);
      assert Spread(target, a[..n + 1]) == before + [target[a[n]]];
      UniqSnoc(before, target[a[n]]);
      assert before[n - 1] == target[a[n - 1]];
      if a[n] == a[n - 1] + 1 {
        assert target[..a[n] + 1] == target[..a[n]] + [target[a[n]]];
        UniqSnoc(target[..a[n]], target[a[n]]);
      }
    }
  }

  /** One sample: all frames of the target spread evenly, or all padding for an empty target. */
  method GetLinearTarget(target: seq<int>, T: nat) returns (linear: seq<int>, ghost size: nat)
    requires T >= 1
    ensures size <= T && size <= |target| && |linear| == T
    ensures size == 0 ==> forall i :: 0 <= i < |target| ==> target[i] < 0
    ensures size == 0 ==> forall t :: 0 <= t < T ==> linear[t] == -1
    ensures size > 0 ==> linear == Spread(target[..size], Positions(size, T))
    ensures size == T || forall i :: size <= i < |target| ==> target[i] < 0
    ensures 0 < size < T ==> target[size - 1] >= 0
  {
    var n := GetTargetSize(target);
    var targetSize := if T < n then T else n;
    size := targetSize;
    if targetSize == 0 {
      linear := seq(T, _ => -1);
    } else {
      linear := [];
      LinearIsAlignment(size, T);
      for t := 0 to T
        invariant |linear| == t && forall u :: 0 <= u < t ==> linear[u] == Spread(target[..size], Positions(size, T))[u]
      {
        AlignmentBelow(Positions(size, T), size, t);
        linear := linear + [target[t * targetSize / T]];
      }
    }
  }

  lemma AlignmentSpells(target: seq<int>, a: seq<int>)
    requires IsAlignment(a, |target|)
    ensures Uniq(Spread(target, a)) == Uniq(target)
  {
    hide Uniq, Spread;
    var n := |a| - 1;
    SpreadSpells(target, a, n);
    assert a[..n + 1] == a && target[..a[n] + 1] == target;
  }

  /** Replabels survive any stretching over frames: deduplicate, unpack, and the
      original tokens are back. */
  lemma StretchRoundTrip(rep: seq<int>, max: nat, tokens: seq<int>, a: seq<int>)
    requires Replabels.IsRep(rep, max) && max >= 1 && Replabels.Indices(tokens) && Replabels.Plain(rep, max, tokens)
    requires IsAlignment(a, |Replabels.Packed(rep, max, tokens)|)
    ensures Replabels.Unpacked(rep, max, Uniq(Spread(Replabels.Packed(rep, max, tokens), a))) == tokens
  {
    hide Replabels.Packed, Replabels.Unpacked, Uniq, Spread, IsAlignment, Replabels.Plain;
    AlignmentSpells(Replabels.Packed(rep, max, tokens), a);
    Replabels.PackedIsUniq(rep, max, tokens);
    Replabels.RoundTrip(rep, max, tokens);
  }

  /** A linear target spells the target it came from. */
  lemma LinearSpells(target: seq<int>, T: nat)
    requires 1 <= |target| <= T
    ensures Uniq(Spread(target, Positions(|target|, T))) == Uniq(target)
  {
    hide Uniq, Position, Spread, IsAlignment;
    LinearIsAlignment(|target|, T);
    AlignmentSpells(target, Positions(|target|, T));
  }

  // ---- The loss of a linear target

  lemma {:induction false} OnlyAlignment(a: seq<int>, L: nat, t: nat)
    requires IsAlignment(a, L) && |a| == L && t < L
    ensures a[t] == t
  {
    AlignmentAtMost(a, L, t);
    AlignmentAtLeast(a, L, t);
  }

  lemma {:induction false} AlignmentAtMost(a: seq<int>, L: nat, t: nat)
    requires IsAlignment(a, L) && t < |a|
    ensures a[t] <= t
  {
    if t > 0 { AlignmentAtMost(a, L, t - 1); }
  }

  lemma {:induction false} AlignmentAtLeast(a: seq<int>, L: nat, t: nat)
    requires IsAlignment(a, L) && t < |a|
    ensures L - 1 - a[t] <= |a| - 1 - t
    decreases |a| - t
  {
    if t + 1 < |a| { AlignmentAtLeast(a, L, t + 1); }
  }

  function Straight(T: nat): (a: seq<int>)
    ensures |a| == T && forall t :: 0 <= t < T ==> a[t] == t
  {
    seq(T, t => t)
  }

  /** With one label per frame there is one alignment: the loss of a linear target
      compares that label sequence with all others. */
  lemma LinearTotal(w: Weights, trans: Weights, linear: seq<int>)
    requires |linear| == |w| >= 1
    ensures AlignmentTotal(w, trans, linear) == WeightOf(w, trans, linear)
  {
    hide WeightOf;
    var T := |w|;
    var a := Straight(T);
    var f: seq<int> -> real := b => AlignedWeight(w, trans, linear, b);
    forall b: seq<int> | Below(b, T) && |b| == T && b != a ensures f(b) == 0.0 {
      if IsAlignment(b, T) {
        forall t | 0 <= t < T ensures b[t] == a[t] { OnlyAlignment(b, T, t); }
      }
    }
    SumExtensionsOne(T, [], T, f, a);
    assert Spread(linear, a) == linear;
  }

  /** So the linear-segmentation loss is never negative, repeated labels or not. */
  lemma LinearLossNonneg(w: Weights, trans: Weights, N: nat, linear: seq<int>)
    requires IsModel(w, trans, N) && IsTarget(linear, N) && |linear| == |w|
    ensures WeightOf(w, trans, linear) <= FullTotal(w, trans, N)
  {
    hide AlignmentTotal, FullTotal, WeightOf;
    LinearTotal(w, trans, linear);
    AsgLoss.AlignmentsBelow(w, trans, N, linear);
  }
}
