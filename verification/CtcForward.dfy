/** The banded CTC forward pass. */
module CtcForward {
  import opened Sums
  import opened Trellises
  import opened Scores
  import opened Ctc
  import opened CtcWindow

  /** What the pass keeps for a state: its forward mass inside the window, and
      the initial -infinity (here 0) outside. */
  function Band(w: Weights, N: nat, target: seq<int>, t: nat, s: int): real {
    if InWindow(target, |w|, t, s) then Alpha(CtcTrellis(w, N, target), t, s) else 0.0
  }

  /** What a kept state hands to state s of the next frame. */
  function FromBand(w: Weights, N: nat, target: seq<int>, t: nat, p: int, s: int): real {
    Band(w, N, target, t, p) * At(w, t + 1, Label(target, N, s))
  }

  lemma BandEdge(w: Weights, N: nat, target: seq<int>, t: nat, p: int, s: int)
    requires InWindow(target, |w|, t + 1, s) && 0 <= p <= 2 * |target| && Edge(target, p, s)
    ensures Incoming(CtcTrellis(w, N, target), t, p, s) == FromBand(w, N, target, t, p, s)
  {
    hide Alpha, Incoming, Arrive, Remain, At, Label, Edge;
    IncomingEdge(w, N, target, t, p, s);
    EdgeDepth(target, p, s);
    if Arrive(target, p) > t { AlphaOutside(w, N, target, t, p); }
  }

  /** Nothing a window state needs was left out of the previous window. */
  lemma BandStep(w: Weights, N: nat, target: seq<int>, t: nat, s: int)
    requires InWindow(target, |w|, t + 1, s)
    ensures Band(w, N, target, t + 1, s)
         == FromBand(w, N, target, t, s, s)
            + (if s >= 1 then FromBand(w, N, target, t, s - 1, s) else 0.0)
            + (if Skips(target, s) then FromBand(w, N, target, t, s - 2, s) else 0.0)
  {
    assert Skips(target, s) ==> s >= 3;
    hide Alpha, Incoming, CtcTrellis, FromBand, Band, Arrive, Remain, Skips;
    AlphaStep(w, N, target, t, s);
    BandEdge(w, N, target, t, s, s);
    if s >= 1 { BandEdge(w, N, target, t, s - 1, s); }
    if Skips(target, s) { BandEdge(w, N, target, t, s - 2, s); }
    BandInside(w, N, target, t + 1, s);
  }

  lemma BandInside(w: Weights, N: nat, target: seq<int>, t: nat, s: int)
    requires InWindow(target, |w|, t, s)
    ensures Band(w, N, target, t, s) == Alpha(CtcTrellis(w, N, target), t, s)
  {
  }

  lemma BandLast(w: Weights, N: nat, target: seq<int>)
    requires |w| >= 1 && IsTarget(target, N)
    ensures LabelingTotal(w, N, target)
         == Band(w, N, target, |w| - 1, 2 * |target|)
            + (if target == [] then 0.0 else Band(w, N, target, |w| - 1, 2 * |target| - 1))
  {
    hide Alpha, Beta, Sum, LabelingTotal, Arrive;
    var tr, t, S := CtcTrellis(w, N, target), |w| - 1, 2 * |target| + 1;
    forall s | 0 <= s < S ensures NodeMass(tr, t, s) == if s >= S - 2 then Band(w, N, target, t, s) else 0.0 {
      BetaLast(tr, s);
      if Arrive(target, s) > t { AlphaOutside(w, N, target, t, s); }
      if s == S - 2 { RemainNext(target, s); }
    }
    TrellisIsLabelingSum(w, N, target);
    SumThree(S, s => NodeMass(tr, t, s), S - 3);
  }

  /** A target that needs more frames than there are is spelled by no labeling. */
  lemma TooLong(w: Weights, N: nat, target: seq<int>)
    requires |w| >= 1 && IsTarget(target, N) && |target| + Repeats(target, |target|) > |w|
    ensures LabelingTotal(w, N, target) == 0.0
  {
    hide LabelingTotal, Arrive, Remain, Alpha;
    Ends(target);
    ArriveNext(target, 2 * |target| - 1);
    BandLast(w, N, target);
  }

  // ---- How the two bounds move from one frame to the next

  lemma StartStays(target: seq<int>, T: nat, t: int, start: int)
    requires 1 <= t < T && IsStart(target, T, t - 1, start)
    requires T - t > |target| + Repeats(target, |target|)
    ensures IsStart(target, T, t, start)
  {
    hide Remain, Repeats;
    Ends(target);
    if start > 0 { RemainMono(target, 0, start - 1); }
    StartFrom(target, T, t, start);
  }

  lemma StartMoves(target: seq<int>, T: nat, t: int, start: int)
    requires 1 <= t < T && IsStart(target, T, t - 1, start)
    requires T - t <= |target| + Repeats(target, |target|)
    ensures start % 2 == 1 ==> start + 2 < 2 * |target|
    ensures IsStart(target, T, t, if start % 2 == 1 && target[start / 2] != target[start / 2 + 1] then start + 2
                    else start + 1)
  {
    hide Remain, Repeats;
    Ends(target);
    if start > 0 { RemainNext(target, start - 1); }
    assert Remain(target, start) == T - t;
    RemainNext(target, start);
    if start % 2 == 1 { RemainNext(target, start + 1); }
    StartFrom(target, T, t, if start % 2 == 1 && target[start / 2] != target[start / 2 + 1] then start + 2
              else start + 1);
  }

  lemma EndMoves(target: seq<int>, t: int, end: int)
    requires 1 <= t && IsEnd(target, t - 1, end)
    ensures t > |target| + Repeats(target, |target|) ==> IsEnd(target, t, end)
    ensures t <= |target| + Repeats(target, |target|) ==>
              IsEnd(target, t, if end % 2 == 0 && end < 2 * |target| && target[end / 2 - 1] != target[end / 2]
                               then end + 2 else end + 1)
  {
    var L, R := |target|, Repeats(target, |target|);
    hide Arrive, Repeats;
    Ends(target);
    if t > L + R {
      EndFrom(target, t, end);
    } else {
      if end > 1 || L > 0 { ArriveNext(target, end - 1); }
      assert Arrive(target, end) == t;
      if end < 2 * L {
        ArriveNext(target, end);
        if end + 1 < 2 * L { ArriveNext(target, end + 1); }
      }
      EndFrom(target, t, if end % 2 == 0 && end < 2 * L && target[end / 2 - 1] != target[end / 2] then end + 2
              else end + 1);
    }
  }

  // ---- The pass itself

  method CountRepeats(labels: seq<int>, len: int) returns (r: nat)
    requires len <= |labels|
    ensures r == Repeats(labels, len)
  {
    r := 0;
    var i := 1;
    while i < len
      invariant 1 <= i && (i <= len || len < 1)
      invariant r == Repeats(labels, if i <= len then i else len)
    {
      if labels[i] == labels[i - 1] { r := r + 1; }
      i := i + 1;
    }
  }

  lemma {:induction false} RepeatsCut(target: seq<int>, n: int, k: int)
    requires 0 <= n <= k <= |target|
    ensures Repeats(target[..k], n) == Repeats(target, n) <= Repeats(target, k)
    ensures n >= 1 ==> Repeats(target, n) < n
  {
    if n > 1 { RepeatsCut(target, n - 1, k); }
    RepeatsMono(target, n, k);
  }

  lemma {:induction false} RepeatsMono(target: seq<int>, n: int, k: int)
    requires 0 <= n <= k <= |target|
    ensures Repeats(target, n) <= Repeats(target, k)
    decreases k
  {
    if n < k { RepeatsMono(target, n, k - 1); }
  }

  /** Row t of the buffer holds the band of the (possibly cut) target, and nothing beyond it. */
  ghost predicate RowDone(w: Weights, N: nat, cut: seq<int>, alphas: array2<real>, t: nat)
    requires t < alphas.Length0
    reads alphas
  {
    forall s :: 0 <= s < alphas.Length1 ==> alphas[t, s] == if s <= 2 * |cut| then Band(w, N, cut, t, s) else 0.0
  }

  lemma BandValue(w: Weights, N: nat, cut: seq<int>, t: nat, s: int, a: real, b: real, c: real)
    requires InWindow(cut, |w|, t + 1, s)
    requires a == Band(w, N, cut, t, s)
    requires b == if s >= 1 then Band(w, N, cut, t, s - 1) else 0.0
    requires c == if Skips(cut, s) then Band(w, N, cut, t, s - 2) else 0.0
    ensures Band(w, N, cut, t + 1, s) == (a + b + c) * At(w, t + 1, Label(cut, N, s))
  {
    hide Band, Skips, At, Label, InWindow;
    BandStep(w, N, cut, t, s);
    var x := At(w, t + 1, Label(cut, N, s));
    assert (a + b + c) * x == a * x + b * x + c * x;
  }

  lemma OutsideBand(w: Weights, N: nat, cut: seq<int>, t: nat, start: int, end: int, s: int)
    requires IsStart(cut, |w|, t, start) && IsEnd(cut, t, end) && 0 <= s <= 2 * |cut|
    ensures InWindow(cut, |w|, t, s) <==> start <= s < end
    ensures !(start <= s < end) ==> Band(w, N, cut, t, s) == 0.0
  {
  }

  /** The buffer with the first t rows filled: exact rows of the cut target, or
      (when the window never leaves the first two states) nothing past those. */
  ghost predicate Filled(w: Weights, N: nat, target: seq<int>, cut: seq<int>, exact: bool, alphas: array2<real>, t: nat)
    reads alphas
  {
    && alphas.Length0 == |w| && alphas.Length1 == 2 * |target| + 1 && t <= |w|
    && |cut| <= |target| && cut == target[..|cut|] && (!exact ==> |target| >= 2)
    && (exact ==> forall u :: 0 <= u < t ==> RowDone(w, N, cut, alphas, u))
    && (!exact ==> forall u, s :: 0 <= u < |w| && 2 <= s < alphas.Length1 ==> alphas[u, s] == 0.0)
    && (forall u, s :: t <= u < |w| && 0 <= s < alphas.Length1 ==> alphas[u, s] == 0.0)
  }

  ghost predicate Bounds(w: Weights, cut: seq<int>, exact: bool, t: int, start: int, end: int) {
    if exact then IsStart(cut, |w|, t, start) && IsEnd(cut, t, end) else start == 0 && end == 2
  }

  /** One frame of the pass: the states start..end of row t from those of row t - 1. */
  method ForwardRow(w: Weights, N: nat, target: seq<int>, alphas: array2<real>, t: nat, start: int, end: int,
                    ghost cut: seq<int>, ghost exact: bool)
    requires IsInput(w, N) && IsTarget(target, N) && 1 <= t < |w|
    requires Filled(w, N, target, cut, exact, alphas, t) && Bounds(w, cut, exact, t, start, end)
    modifies alphas
    ensures Filled(w, N, target, cut, exact, alphas, t + 1)
  {
    hide Band, Arrive, Remain, Repeats;
    assert exact ==> RowDone(w, N, cut, alphas, t - 1);
    var s := start;
    while s < end
      invariant exact ==> RowDone(w, N, cut, alphas, t - 1)
      invariant start <= s && (s == start || s <= end)
      invariant forall j :: 0 <= j < alphas.Length1 && !(start <= j < s) ==> alphas[t, j] == 0.0
      invariant forall u, j :: 0 <= u < |w| && u != t && 0 <= j < alphas.Length1 ==> alphas[u, j] == old(alphas[u, j])
      invariant exact ==> forall j :: start <= j < s ==> alphas[t, j] == Band(w, N, cut, t, j)
    {
      var curLabel := if s % 2 == 1 then target[s / 2] else N - 1;
      if s == 0 {
        alphas[t, s] := alphas[t - 1, s];
      } else if s % 2 == 0 || s == 1 || target[s / 2] == target[s / 2 - 1] {
        alphas[t, s] := alphas[t - 1, s] + alphas[t - 1, s - 1];
      } else {
        alphas[t, s] := alphas[t - 1, s] + alphas[t - 1, s - 1] + alphas[t - 1, s - 2];
      }
      ghost var sum := alphas[t, s];
      alphas[t, s] := alphas[t, s] * w[t][curLabel];
      if exact {
        OutsideBand(w, N, cut, t, start, end, s);
        BandValue(w, N, cut, t - 1, s, alphas[t - 1, s], if s >= 1 then alphas[t - 1, s - 1] else 0.0,
                  if Skips(cut, s) then alphas[t - 1, s - 2] else 0.0);
      }
      s := s + 1;
    }
    if exact {
      forall j | 0 <= j < alphas.Length1
        ensures alphas[t, j] == if j <= 2 * |cut| then Band(w, N, cut, t, j) else 0.0 {
        if j <= 2 * |cut| { OutsideBand(w, N, cut, t, start, end, j); }
      }
      forall u | 0 <= u < t ensures RowDone(w, N, cut, alphas, u) {
        assert old(RowDone(w, N, cut, alphas, u));
      }
    }
  }

  lemma BoundsMove(w: Weights, target: seq<int>, cut: seq<int>, exact: bool, t: int, L: int, R: int, start: int,
                   end: int)
    requires 1 <= t < |w| && |cut| <= |target| && cut == target[..|cut|] && Bounds(w, cut, exact, t - 1, start, end)
    requires if exact then L == |cut| && R == Repeats(cut, |cut|) else L + R <= 0
    ensures |w| - t <= L + R ==> 0 <= start && (start % 2 == 1 ==> start / 2 + 1 < |target|)
    ensures t <= L + R && end % 2 == 0 && end < 2 * L ==> 1 <= end / 2 < |target|
    ensures Bounds(w, cut, exact, t,
                   if |w| - t > L + R then start
                   else if start % 2 == 1 && target[start / 2] != target[start / 2 + 1] then start + 2 else start + 1,
                   if t > L + R then end
                   else if end % 2 == 0 && end < 2 * L && target[end / 2 - 1] != target[end / 2] then end + 2
                     else end + 1)
  {
    hide Repeats, Arrive, Remain;
    if exact {
      if |w| - t > L + R { StartStays(cut, |w|, t, start); } else { StartMoves(cut, |w|, t, start); }
      EndMoves(cut, t, end);
    }
  }

  lemma Setup(w: Weights, N: nat, target: seq<int>, cut: seq<int>, exact: bool, alphas: array2<real>, L: int, R: int,
              start: int, end: int)
    requires IsInput(w, N) && IsTarget(target, N) && alphas.Length0 == |w| && alphas.Length1 == 2 * |target| + 1
    requires L == (if |target| + Repeats(target, |target|) < |w| then |target| + Repeats(target, |target|) else |w|)
                  - Repeats(target, |target|)
    requires R == Repeats(target, L) && cut == target[..if L < 0 then 0 else L] && exact == (L > 0 || target == [])
    requires start == (if |w| - (L + R) > 0 then 0 else 1) && end == if target == [] then 1 else 2
    requires forall t, s :: 0 <= t < |w| && 0 <= s < alphas.Length1 ==>
               alphas[t, s] == if t == 0 && s == 0 && start == 0 then w[0][N - 1]
                               else if t == 0 && s == 1 then w[0][target[0]] else 0.0
    ensures exact ==> R == Repeats(cut, |cut|) && |cut| + R <= |w|
    ensures Filled(w, N, target, cut, exact, alphas, 1) && Bounds(w, cut, exact, 0, start, end)
    ensures !exact ==> L + R <= 0
    ensures |cut| == |target| <==> |target| + Repeats(target, |target|) <= |w|
  {
    RepeatsCut(target, |target|, |target|);
    if exact {
      RepeatsCut(target, L, L);
      RepeatsMono(target, L, |target|);
      hide Repeats;
      Ends(cut);
      if L > 0 {
        RemainNext(cut, 0);
        ArriveNext(cut, 0);
        ArriveNext(cut, 1);
      }
      hide Arrive, Remain;
      StartFrom(cut, |w|, 0, start);
      EndFrom(cut, 0, end);
      FirstRow(w, N, cut, alphas, start, end);
    }
  }

  lemma FirstRow(w: Weights, N: nat, cut: seq<int>, alphas: array2<real>, start: int, end: int)
    requires IsInput(w, N) && IsTarget(cut, N) && alphas.Length0 == |w| && alphas.Length1 >= 2 * |cut| + 1
    requires IsStart(cut, |w|, 0, start) && IsEnd(cut, 0, end) && end == if cut == [] then 1 else 2
    requires 0 <= start <= 1
    requires forall s :: 0 <= s < alphas.Length1 ==>
               alphas[0, s] == if s == 0 && start == 0 then w[0][N - 1]
                               else if s == 1 && cut != [] then w[0][cut[0]] else 0.0
    ensures RowDone(w, N, cut, alphas, 0)
  {
    hide Arrive, Remain;
    forall s | 0 <= s < alphas.Length1
      ensures alphas[0, s] == if s <= 2 * |cut| then Band(w, N, cut, 0, s) else 0.0 {
      if s <= 2 * |cut| {
        OutsideBand(w, N, cut, 0, start, end, s);
        AlphaFirst(CtcTrellis(w, N, cut), s);
      }
    }
  }

  lemma Finish(w: Weights, N: nat, target: seq<int>, cut: seq<int>, exact: bool, alphas: array2<real>)
    requires IsInput(w, N) && IsTarget(target, N) && alphas.Length0 == |w| && alphas.Length1 == 2 * |target| + 1
    requires Filled(w, N, target, cut, exact, alphas, |w|) && (exact || cut == [])
    requires |cut| == |target| <==> |target| + Repeats(target, |target|) <= |w|
    ensures alphas[|w| - 1, 2 * |target|] + (if target == [] then 0.0 else alphas[|w| - 1, 2 * |target| - 1])
         == LabelingTotal(w, N, target)
    ensures |target| + Repeats(target, |target|) <= |w| ==>
              forall t :: 0 <= t < |w| ==> RowDone(w, N, target, alphas, t)
  {
    hide Band, LabelingTotal, Repeats;
    assert exact ==> RowDone(w, N, cut, alphas, |w| - 1);
    if |cut| == |target| {
      assert cut == target;
      BandLast(w, N, target);
    } else {
      TooLong(w, N, target);
    }
  }

  /** The forward pass. Its total is the summed weight of all labelings that
      collapse to the target, whatever the length of the target: when the
      target needs more frames than there are, the shortened L only narrows the
      window and the two last entries, still those of the full target, stay 0. */
  method Forward(w: Weights, N: nat, target: seq<int>) returns (alphas: array2<real>, total: real)
    requires IsInput(w, N) && IsTarget(target, N)
    ensures total == LabelingTotal(w, N, target)
    ensures alphas.Length0 == |w| && alphas.Length1 == 2 * |target| + 1
    ensures |target| + Repeats(target, |target|) <= |w| ==>
              forall t :: 0 <= t < |w| ==> RowDone(w, N, target, alphas, t)
  {
    hide Band, Bounds, Filled, RowDone, LabelingTotal, Repeats;
    var T, L, S := |w|, |target|, 2 * |target| + 1;
    var R := CountRepeats(target, L);
    L := (if L + R < T then L + R else T) - R;
    R := CountRepeats(target, L);

    alphas := new real[T, S]((t, s) => 0.0);
    var start := if T - (L + R) > 0 then 0 else 1;
    var end := if S == 1 then 1 else 2;
    alphas[0, 0] := if start == 0 then w[0][N - 1] else 0.0;
    if S != 1 { alphas[0, 1] := w[0][target[0]]; }

    ghost var cut := target[..if L < 0 then 0 else L];
    ghost var exact := L > 0 || S == 1;   // otherwise the window stays on the first two states
    Setup(w, N, target, cut, exact, alphas, L, R, start, end);

    for t := 1 to T
      invariant 0 <= start && Bounds(w, cut, exact, t - 1, start, end)
      invariant Filled(w, N, target, cut, exact, alphas, t)
    {
      BoundsMove(w, target, cut, exact, t, L, R, start, end);
      if T - t <= L + R {
        if start % 2 == 1 && target[start / 2] != target[start / 2 + 1] { start := start + 1; }
        start := start + 1;
      }
      if t <= L + R {
        if end % 2 == 0 && end < 2 * L && target[end / 2 - 1] != target[end / 2] { end := end + 1; }
        end := end + 1;
      }
      ForwardRow(w, N, target, alphas, t, start, end, cut, exact);
    }
    total := alphas[T - 1, S - 1] + (if S == 1 then 0.0 else alphas[T - 1, S - 2]);
    Finish(w, N, target, cut, exact, alphas);
  }
}
