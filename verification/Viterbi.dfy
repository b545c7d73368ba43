/** The best label sequence under emissions and transitions (log domain), as
    `ViterbiPath` computes it with two rolling rows and back-pointers. */
module Viterbi {
  import opened Sums
  import opened Scores

  predicate IsModel(input: Weights, trans: Weights, N: nat) {
    && N >= 1 && |input| >= 1 && |trans| == N
    && (forall t :: 0 <= t < |input| ==> |input[t]| == N)
    && (forall m :: 0 <= m < N ==> |trans[m]| == N)
  }

  /** Emissions plus transitions along a label sequence. */
  function Score(input: Weights, trans: Weights, pi: seq<int>): real {
    if pi == [] then 0.0
    else
      var n := |pi| - 1;
      Score(input, trans, pi[..n]) + (if n == 0 then 0.0 else At(trans, pi[n], pi[n - 1])) + At(input, n, pi[n])
  }

  lemma ScoreSnoc(input: Weights, trans: Weights, pi: seq<int>, c: int)
    ensures Score(input, trans, pi + [c])
         == Score(input, trans, pi) + (if pi == [] then 0.0 else At(trans, c, pi[|pi| - 1])) + At(input, |pi|, c)
  {
    assert (pi + [c])[..|pi|] == pi;
  }

  /** pi is a best sequence of its length among those that end in the same label. */
  ghost predicate BestEnding(input: Weights, trans: Weights, N: nat, pi: seq<int>) {
    && pi != [] && Below(pi, N)
    && forall rho: seq<int> :: |rho| == |pi| && Below(rho, N) && rho[|rho| - 1] == pi[|pi| - 1] ==>
         Score(input, trans, rho) <= Score(input, trans, pi)
  }

  /** A best sequence extended through its best predecessor is best again. */
  lemma Extend(input: Weights, trans: Weights, N: nat, t: nat, c: int, best: seq<seq<int>>, k: int)
    requires |best| == N && 0 <= k < N && 0 <= c < N
    requires forall n :: 0 <= n < N ==> |best[n]| == t + 1 && best[n][t] == n && BestEnding(input, trans, N, best[n])
    requires forall n :: 0 <= n < N ==>
               Score(input, trans, best[n]) + At(trans, c, n) <= Score(input, trans, best[k]) + At(trans, c, k)
    ensures BestEnding(input, trans, N, best[k] + [c])
    ensures Score(input, trans, best[k] + [c]) == Score(input, trans, best[k]) + At(trans, c, k) + At(input, t + 1, c)
  {
    hide Score, At;
    ScoreSnoc(input, trans, best[k], c);
    forall rho: seq<int> | |rho| == t + 2 && Below(rho, N) && rho[t + 1] == c
      ensures Score(input, trans, rho) <= Score(input, trans, best[k] + [c]) {
      var before := rho[..t + 1];
      assert rho == before + [c];
      ScoreSnoc(input, trans, before, c);
      var n := before[t];
      assert BestEnding(input, trans, N, best[n]);
    }
  }

  /** Rows of back-pointers; row 0 is not used. */
  predicate Pointers(back: seq<seq<int>>, N: nat) {
    forall u :: 1 <= u < |back| ==> |back[u]| == N && Below(back[u], N)
  }

  /** The sequence that the back-pointers trace from label n at frame t. */
  function Trace(back: seq<seq<int>>, N: nat, t: nat, n: int): (pi: seq<int>)
    requires t < |back| && Pointers(back, N) && 0 <= n < N
    ensures |pi| == t + 1 && pi[t] == n && Below(pi, N)
  {
    if t == 0 then [n] else Trace(back, N, t - 1, back[t][n]) + [n]
  }

  lemma {:induction false} TracePrefix(back: seq<seq<int>>, N: nat, row: seq<int>, t: nat, n: int)
    requires t < |back| && Pointers(back, N) && Pointers(back + [row], N) && 0 <= n < N
    ensures Trace(back + [row], N, t, n) == Trace(back, N, t, n)
  {
    if t > 0 { TracePrefix(back, N, row, t - 1, back[t][n]); }
  }

  /** score is the best score of a sequence that ends in n at frame t, and the
      back-pointers trace one that attains it. */
  ghost predicate TracedTo(input: Weights, trans: Weights, N: nat, score: real, back: seq<seq<int>>, t: nat, n: int) {
    && t < |back| && Pointers(back, N) && 0 <= n < N
    && BestEnding(input, trans, N, Trace(back, N, t, n)) && score == Score(input, trans, Trace(back, N, t, n))
  }

  ghost predicate Traced(input: Weights, trans: Weights, N: nat, scores: seq<real>, back: seq<seq<int>>, t: nat) {
    |back| == t + 1 && |scores| == N && forall n :: 0 <= n < N ==> TracedTo(input, trans, N, scores[n], back, t, n)
  }

  lemma TracedFirst(input: Weights, trans: Weights, N: nat, scores: seq<real>)
    requires |scores| == N && forall n :: 0 <= n < N ==> scores[n] == At(input, 0, n)
    ensures Traced(input, trans, N, scores, [[]], 0)
  {
    hide At;
    forall n | 0 <= n < N ensures TracedTo(input, trans, N, scores[n], [[]], 0, n) {
      assert Trace([[]], N, 0, n) == [n];
      forall rho: seq<int> | |rho| == 1 && rho[0] == n ensures rho == [n] {}
      ScoreSnoc(input, trans, [], n);
      assert [] + [n] == [n];
    }
  }

  /** row picks, for every label, a best predecessor. */
  ghost predicate BestRow(trans: Weights, N: nat, scores: seq<real>, row: seq<int>) {
    |row| == |scores| == N && Below(row, N) && forall c :: 0 <= c < N ==> BestPick(trans, N, scores, c, row[c])
  }

  ghost predicate BestPick(trans: Weights, N: nat, scores: seq<real>, c: int, k: int) {
    |scores| == N && 0 <= k < N && forall n :: 0 <= n < N ==> scores[n] + At(trans, c, n) <= scores[k] + At(trans, c, k)
  }

  lemma TracedNext(input: Weights, trans: Weights, N: nat, scores: seq<real>, back: seq<seq<int>>, t: nat,
                   row: seq<int>, scores': seq<real>)
    requires N >= 1 && Traced(input, trans, N, scores, back, t) && BestRow(trans, N, scores, row) && |scores'| == N
    requires forall c :: 0 <= c < N ==> scores'[c] == scores[row[c]] + At(trans, c, row[c]) + At(input, t + 1, c)
    ensures Traced(input, trans, N, scores', back + [row], t + 1)
  {
    hide Score, At, BestEnding;
    assert TracedTo(input, trans, N, scores[0], back, t, 0);
    var best := seq(N, n requires 0 <= n < N => Trace(back, N, t, n));
    forall n | 0 <= n < N ensures BestEnding(input, trans, N, best[n]) && scores[n] == Score(input, trans, best[n]) {
      assert TracedTo(input, trans, N, scores[n], back, t, n);
    }
    forall c | 0 <= c < N ensures TracedTo(input, trans, N, scores'[c], back + [row], t + 1, c) {
      assert BestPick(trans, N, scores, c, row[c]);
      Extend(input, trans, N, t, c, best, row[c]);
      TracePrefix(back, N, row, t, row[c]);
    }
  }

  /** The best predecessor: the first label with the largest value. */
  method BestLabel(trans: Weights, N: nat, alpha: array2<real>, row: nat, last: bool, m: nat)
    returns (maxIndex: int, maxValue: real)
    requires N >= 1 && row < alpha.Length0 && alpha.Length1 == N
    requires |trans| == N && m < N && forall i :: 0 <= i < N ==> |trans[i]| == N
    ensures 0 <= maxIndex < N && maxValue == alpha[row, maxIndex] + (if last then 0.0 else At(trans, m, maxIndex))
    ensures forall n :: 0 <= n < N ==> alpha[row, n] + (if last then 0.0 else At(trans, m, n)) <= maxValue
    ensures forall n :: 0 <= n < maxIndex ==> alpha[row, n] + (if last then 0.0 else At(trans, m, n)) < maxValue
  {
    maxIndex, maxValue := -1, 0.0;   // -1 stands for a maximum of -infinity
    for n := 0 to N
      invariant -1 <= maxIndex < n && (n > 0 ==> maxIndex >= 0)
      invariant maxIndex >= 0 ==> maxValue == alpha[row, maxIndex] + (if last then 0.0 else At(trans, m, maxIndex))
      invariant forall k :: 0 <= k < n ==> alpha[row, k] + (if last then 0.0 else At(trans, m, k)) <= maxValue
      invariant forall k :: 0 <= k < maxIndex ==> alpha[row, k] + (if last then 0.0 else At(trans, m, k)) < maxValue
    {
      var val := alpha[row, n] + (if last then 0.0 else trans[m][n]);
      if maxIndex == -1 || val > maxValue {
        maxIndex, maxValue := n, val;
      }
    }
  }

  function Row(m: array2<real>, i: nat): (s: seq<real>)
    requires i < m.Length0
    reads m
    ensures |s| == m.Length1 && forall j :: 0 <= j < |s| ==> s[j] == m[i, j]
  {
    seq(m.Length1, j requires 0 <= j < m.Length1 reads m => m[i, j])
  }

  /** One frame: row t % 2 of alpha from row (t - 1) % 2, and row t of beta. */
  method ComputeRow(input: Weights, trans: Weights, N: nat, alpha: array2<real>, beta: array2<int>, t: nat, prev: nat,
                    cur: nat)
    returns (ghost row: seq<int>)
    requires IsModel(input, trans, N) && 1 <= t < |input| && prev < 2 && cur < 2 && prev != cur
    requires alpha.Length0 == 2 && alpha.Length1 == N && beta.Length0 == |input| && beta.Length1 == N
    modifies alpha, beta
    ensures BestRow(trans, N, old(Row(alpha, prev)), row)
    ensures forall c :: 0 <= c < N ==> beta[t, c] == row[c]
    ensures forall c :: 0 <= c < N ==>
              alpha[cur, c] == old(Row(alpha, prev))[row[c]] + At(trans, c, row[c]) + At(input, t, c)
    ensures forall u, c :: 0 <= u < |input| && u != t && 0 <= c < N ==> beta[u, c] == old(beta[u, c])
  {
    ghost var scores := Row(alpha, prev);
    row := [];
    for m := 0 to N
      invariant forall n :: 0 <= n < N ==> alpha[prev, n] == scores[n]
      invariant |row| == m && Below(row, N)
      invariant forall c :: 0 <= c < m ==> BestPick(trans, N, scores, c, row[c])
      invariant forall c :: 0 <= c < m ==> beta[t, c] == row[c]
      invariant forall c :: 0 <= c < m ==> alpha[cur, c] == scores[row[c]] + At(trans, c, row[c]) + At(input, t, c)
      invariant forall u, c :: 0 <= u < |input| && u != t && 0 <= c < N ==> beta[u, c] == old(beta[u, c])
    {
      var maxIndex, maxValue := BestLabel(trans, N, alpha, prev, false, m);
      assert BestPick(trans, N, scores, m, maxIndex);
      alpha[cur, m] := maxValue + input[t][m];
      beta[t, m] := maxIndex;
      row := row + [maxIndex];
    }
  }

  method ReadFirst(input: Weights, ghost trans: Weights, N: nat, alpha: array2<real>)
    requires IsModel(input, trans, N) && alpha.Length0 == 2 && alpha.Length1 == N
    modifies alpha
    ensures forall n :: 0 <= n < N ==> alpha[0, n] == At(input, 0, n)
  {
    for n := 0 to N
      invariant forall k :: 0 <= k < n ==> alpha[0, k] == At(input, 0, k)
    {
      alpha[0, n] := input[0][n];
    }
  }

  /** Follow the back-pointers from the last label to the first. */
  method Reconstruct(N: nat, beta: array2<int>, last: int, ghost back: seq<seq<int>>) returns (path: array<int>)
    requires beta.Length0 == |back| >= 1 && beta.Length1 == N && Pointers(back, N) && 0 <= last < N
    requires forall u, c :: 1 <= u < |back| && 0 <= c < N ==> beta[u, c] == back[u][c]
    ensures fresh(path) && path.Length == |back| && path[..] == Trace(back, N, |back| - 1, last)
  {
    var T := beta.Length0;
    path := new int[T];
    path[T - 1] := last;
    ghost var full := Trace(back, N, T - 1, last);
    var s := T - 1;
    while s > 0
      invariant 0 <= s < T
      invariant forall j :: s <= j < T ==> path[j] == full[j]
    {
      TraceStep(back, N, T - 1, last, s);
      path[s - 1] := beta[s, path[s]];
      s := s - 1;
    }
  }

  /** Each label of a traced sequence is the back-pointer of the next. */
  lemma {:induction false} TraceStep(back: seq<seq<int>>, N: nat, t: nat, n: int, s: nat)
    requires t < |back| && Pointers(back, N) && 0 <= n < N && 1 <= s <= t
    ensures Trace(back, N, t, n)[s - 1] == back[s][Trace(back, N, t, n)[s]]
  {
    if s < t { TraceStep(back, N, t - 1, back[t][n], s); }
  }

  lemma BestOfAll(input: Weights, trans: Weights, N: nat, scores: seq<real>, back: seq<seq<int>>, t: nat, k: int)
    requires Traced(input, trans, N, scores, back, t) && 0 <= k < N && forall n :: 0 <= n < N ==> scores[n] <= scores[k]
    ensures Pointers(back, N)
    ensures forall pi: seq<int> :: |pi| == t + 1 && Below(pi, N) ==>
              Score(input, trans, pi) <= Score(input, trans, Trace(back, N, t, k))
  {
    hide Score;
    assert TracedTo(input, trans, N, scores[k], back, t, k);
    forall pi: seq<int> | |pi| == t + 1 && Below(pi, N)
      ensures Score(input, trans, pi) <= Score(input, trans, Trace(back, N, t, k)) {
      assert TracedTo(input, trans, N, scores[pi[t]], back, t, pi[t]);
    }
  }

  /** The path scores at least as much as every one of the N^T label sequences. */
  method Compute(input: Weights, trans: Weights, N: nat) returns (path: array<int>)
    requires IsModel(input, trans, N)
    ensures path.Length == |input| && Below(path[..], N)
    ensures forall pi: seq<int> :: |pi| == |input| && Below(pi, N) ==>
      Score(input, trans, pi) <= Score(input, trans, path[..])
  {
    hide Score, At, BestRow, TracedTo;
    var T := |input|;
    var alpha := new real[2, N];
    var beta := new int[T, N];
    ReadFirst(input, trans, N, alpha);
    ghost var back: seq<seq<int>> := [[]];
    TracedFirst(input, trans, N, Row(alpha, 0));
    for t := 1 to T
      invariant |back| == t && Traced(input, trans, N, Row(alpha, (t - 1) % 2), back, t - 1)
      invariant forall u :: 1 <= u < t ==> |back[u]| == N
      invariant forall u, c :: 1 <= u < t && 0 <= c < N ==> beta[u, c] == back[u][c]
    {
      ghost var scores := Row(alpha, (t - 1) % 2);
      ghost var row := ComputeRow(input, trans, N, alpha, beta, t, (t - 1) % 2, t % 2);
      TracedNext(input, trans, N, scores, back, t - 1, row, Row(alpha, t % 2));
      RowLength(trans, N, scores, row);
      back := back + [row];
    }
    var maxIndex, maxValue := BestLabel(trans, N, alpha, (T - 1) % 2, true, 0);
    BestOfAll(input, trans, N, Row(alpha, (T - 1) % 2), back, T - 1, maxIndex);
    path := Reconstruct(N, beta, maxIndex, back);
  }

  lemma RowLength(trans: Weights, N: nat, scores: seq<real>, row: seq<int>)
    requires BestRow(trans, N, scores, row)
    ensures |row| == N
  {
  }
}
