/** The full-connection criterion on CPU: forward over all label sequences and
    its backward pass. Every log-sum-exp is taken relative to its largest
    input. */
module FullConnection {
  import opened Sums
  import opened Matrices
  import opened Trellises
  import opened Scores
  import opened Asg

  // ---- One normalised log-sum-exp

  /** The value label n at frame v contributes to label m: with the transition
      weight inside the sequence, without at its end. */
  function Value(tr: Trellis, trans: Weights, v: nat, last: bool, m: int, n: int): real {
    Alpha(tr, v, n) * (if last then 1.0 else At(trans, m, n))
  }

  function ValueTotal(tr: Trellis, trans: Weights, v: nat, last: bool, m: int): real {
    Sum(tr.S, n => Value(tr, trans, v, last, m, n))
  }

  ghost predicate AlphaRow(tr: Trellis, alpha: array2<real>, t: nat)
    requires t < alpha.Length0 && alpha.Length1 == tr.S
    reads alpha
  {
    forall n :: 0 <= n < tr.S ==> alpha[t, n] == Alpha(tr, t, n) > 0.0
  }

  lemma ValueIs(tr: Trellis, trans: Weights, N: nat, v: nat, last: bool, m: int, n: int)
    requires Positive(trans, N) && |trans| == N && 0 <= m < N && 0 <= n < N && Alpha(tr, v, n) > 0.0
    ensures Value(tr, trans, v, last, m, n) == Alpha(tr, v, n) * (if last then 1.0 else trans[m][n]) > 0.0
  {
    hide Alpha;
  }

  lemma SumPositive(n: nat, f: int -> real)
    requires n >= 1 && forall i :: 0 <= i < n ==> f(i) > 0.0
    ensures Sum(n, f) > 0.0
  {
    hide Sum;
    SumTerm(n, f, 0);
  }

  /** The values of a row, divided by the largest, and their sum. */
  method Normalise(ghost tr: Trellis, trans: Weights, N: nat, alpha: array2<real>, buf: array2<real>, v: nat,
                   last: bool, m: nat)
    returns (maxValue: real, sumValue: real)
    requires Positive(trans, N) && |trans| == N && tr.S == N && N >= 1 && m < N
    requires alpha != buf && v < alpha.Length0 && alpha.Length1 == N && buf.Length0 == buf.Length1 == N
    requires AlphaRow(tr, alpha, v)
    modifies buf
    ensures maxValue > 0.0 && sumValue > 0.0 && sumValue * maxValue == ValueTotal(tr, trans, v, last, m) > 0.0
    ensures forall n :: 0 <= n < N ==> buf[m, n] * maxValue == Value(tr, trans, v, last, m, n)
    ensures forall i, n :: 0 <= i < N && i != m && 0 <= n < N ==> buf[i, n] == old(buf[i, n])
  {
    hide Alpha, Sum, Value;
    maxValue := 0.0;
    for n := 0 to N
      invariant forall k :: 0 <= k < n ==> buf[m, k] == Value(tr, trans, v, last, m, k) > 0.0
      invariant n > 0 ==> maxValue > 0.0
      invariant forall i, k :: 0 <= i < N && i != m && 0 <= k < N ==> buf[i, k] == old(buf[i, k])
    {
      var val := alpha[v, n] * (if last then 1.0 else trans[m][n]);
      ValueIs(tr, trans, N, v, last, m, n);
      buf[m, n] := val;
      if val > maxValue { maxValue := val; }
    }
    sumValue := NormaliseRow(tr, trans, buf, v, last, m, maxValue);
  }

  method NormaliseRow(ghost tr: Trellis, ghost trans: Weights, buf: array2<real>, ghost v: nat, ghost last: bool,
                      m: nat, maxValue: real)
    returns (sumValue: real)
    requires m < buf.Length0 && buf.Length1 == tr.S >= 1 && maxValue > 0.0
    requires forall k :: 0 <= k < tr.S ==> buf[m, k] == Value(tr, trans, v, last, m, k) > 0.0
    modifies buf
    ensures sumValue > 0.0 && sumValue * maxValue == ValueTotal(tr, trans, v, last, m) > 0.0
    ensures forall n :: 0 <= n < tr.S ==> buf[m, n] * maxValue == Value(tr, trans, v, last, m, n)
    ensures forall i, n :: 0 <= i < buf.Length0 && i != m && 0 <= n < tr.S ==> buf[i, n] == old(buf[i, n])
  {
    hide Value, Sum, Times;
    ghost var f: int -> real := k => Value(tr, trans, v, last, m, k);
    SumEmpty(f);
    TimesZero(maxValue);
    sumValue := 0.0;
    var n := 0;
    while n < buf.Length1
      invariant 0 <= n <= tr.S
      invariant forall k :: 0 <= k < n ==> Times(buf[m, k], maxValue) == f(k)
      invariant forall k :: n <= k < tr.S ==> buf[m, k] == f(k) > 0.0
      invariant Times(sumValue, maxValue) == Sum(n, f)
      invariant forall i, k :: 0 <= i < buf.Length0 && i != m && 0 <= k < tr.S ==> buf[i, k] == old(buf[i, k])
    {
      DivTimes(buf[m, n], maxValue);
      TimesAdd(sumValue, buf[m, n] / maxValue, maxValue);
      SumStep(n, f);
      buf[m, n] := buf[m, n] / maxValue;
      sumValue := sumValue + buf[m, n];
      n := n + 1;
    }
    SumPositive(tr.S, f);
    FinishRow(tr, trans, buf, v, last, m, maxValue, sumValue);
  }

  lemma SumEmpty(f: int -> real) ensures Sum(0, f) == 0.0 {}

  lemma SumStep(n: nat, f: int -> real) ensures Sum(n + 1, f) == Sum(n, f) + f(n) {}

  lemma DivTimes(x: real, m: real)
    requires m > 0.0
    ensures Times(x / m, m) == x
  {
  }

  lemma FinishRow(tr: Trellis, trans: Weights, buf: array2<real>, v: nat, last: bool, m: nat, maxValue: real,
                  sumValue: real)
    requires m < buf.Length0 && buf.Length1 == tr.S && maxValue > 0.0
    requires forall k :: 0 <= k < tr.S ==> Times(buf[m, k], maxValue) == Value(tr, trans, v, last, m, k)
    requires Times(sumValue, maxValue) == ValueTotal(tr, trans, v, last, m) > 0.0
    ensures sumValue > 0.0 && sumValue * maxValue == ValueTotal(tr, trans, v, last, m)
    ensures forall n :: 0 <= n < tr.S ==> buf[m, n] * maxValue == Value(tr, trans, v, last, m, n)
  {
    hide Value, ValueTotal;
  }

  // ---- The forward pass

  lemma AlphaFromValues(w: Weights, trans: Weights, N: nat, v: nat, m: int)
    requires 0 <= m < N
    ensures var tr := FccTrellis(w, trans, N);
            Alpha(tr, v + 1, m) == ValueTotal(tr, trans, v, false, m) * At(w, v + 1, m)
  {
    hide Alpha, Sum, At;
    var tr := FccTrellis(w, trans, N);
    AlphaNext(tr, v, m);
    forall n ensures Incoming(tr, v, n, m) == At(w, v + 1, m) * Value(tr, trans, v, false, m, n) {
      MulAssoc(Alpha(tr, v, n), At(trans, m, n), At(w, v + 1, m));
    }
    SumScale(N, At(w, v + 1, m), n => Value(tr, trans, v, false, m, n), n => Incoming(tr, v, n, m));
  }

  /** At the end of the sequence the values sum to the total of all label sequences. */
  lemma TotalFromValues(w: Weights, trans: Weights, N: nat, m: int)
    requires |w| >= 1
    ensures ValueTotal(FccTrellis(w, trans, N), trans, |w| - 1, true, m) == FullTotal(w, trans, N)
  {
    hide Alpha, Beta, Sum, FullTotal;
    var tr, t := FccTrellis(w, trans, N), |w| - 1;
    forall n ensures NodeMass(tr, t, n) == Value(tr, trans, t, true, m, n) { BetaLast(tr, n); }
    SumExt(N, s => NodeMass(tr, tr.T - 1, s), n => Value(tr, trans, t, true, m, n));
    FccIsFullSum(w, trans, N);
  }

  ghost predicate Shapes(w: Weights, trans: Weights, N: nat, alpha: array2<real>, buf: array2<real>) {
    && IsModel(w, trans, N) && N >= 1 && |w| >= 1 && alpha != buf
    && alpha.Length0 == |w| && alpha.Length1 == N && buf.Length0 == buf.Length1 == N
  }

  method ForwardRow(w: Weights, trans: Weights, N: nat, alpha: array2<real>, buf: array2<real>, t: nat)
    requires Shapes(w, trans, N, alpha, buf) && 1 <= t < |w| && AlphaRow(FccTrellis(w, trans, N), alpha, t - 1)
    modifies alpha, buf
    ensures AlphaRow(FccTrellis(w, trans, N), alpha, t)
    ensures forall u, n :: 0 <= u < |w| && u != t && 0 <= n < N ==> alpha[u, n] == old(alpha[u, n])
  {
    hide Alpha, Value, ValueTotal, Sum;
    ghost var tr := FccTrellis(w, trans, N);
    for m := 0 to N
      invariant forall u, n :: 0 <= u < |w| && u != t && 0 <= n < N ==> alpha[u, n] == old(alpha[u, n])
      invariant forall n :: 0 <= n < m ==> alpha[t, n] == Alpha(tr, t, n) > 0.0
    {
      var maxValue, sumValue := Normalise(tr, trans, N, alpha, buf, t - 1, false, m);
      AlphaFromValues(w, trans, N, t - 1, m);
      alpha[t, m] := sumValue * maxValue * w[t][m];
    }
  }

  /** The forward pass computes the summed weight of all label sequences. */
  method Forward(w: Weights, trans: Weights, N: nat, alpha: array2<real>, buf: array2<real>) returns (total: real)
    requires Shapes(w, trans, N, alpha, buf)
    modifies alpha, buf
    ensures total == FullTotal(w, trans, N)
    ensures forall t :: 0 <= t < |w| ==> AlphaRow(FccTrellis(w, trans, N), alpha, t)
  {
    hide Alpha, FullTotal, ValueTotal, Value;
    ghost var tr := FccTrellis(w, trans, N);
    for n := 0 to N
      invariant forall k :: 0 <= k < n ==> alpha[0, k] == w[0][k]
    {
      alpha[0, n] := w[0][n];
    }
    FirstRow(w, trans, N, alpha);
    for t := 1 to |w|
      invariant forall u :: 0 <= u < t ==> AlphaRow(tr, alpha, u)
    {
      label Row:
      assert AlphaRow(tr, alpha, t - 1);
      ForwardRow(w, trans, N, alpha, buf, t);
      forall u | 0 <= u < t ensures AlphaRow(tr, alpha, u) {
        assert old@Row(AlphaRow(tr, alpha, u));
      }
    }
    assert AlphaRow(tr, alpha, |w| - 1);
    var maxValue, sumValue := Normalise(tr, trans, N, alpha, buf, |w| - 1, true, 0);
    TotalFromValues(w, trans, N, 0);
    total := sumValue * maxValue;
  }

  lemma FirstRow(w: Weights, trans: Weights, N: nat, alpha: array2<real>)
    requires IsModel(w, trans, N) && alpha.Length0 == |w| && alpha.Length1 == N
    requires forall n :: 0 <= n < N ==> alpha[0, n] == At(w, 0, n)
    ensures AlphaRow(FccTrellis(w, trans, N), alpha, 0)
  {
  }
}
