/** Per-frame label scores of a network, in the exponentiated domain. */
module Scores {

  type Weights = seq<seq<real>>   // w[t][c]: exponentiated log-probability of label c at frame t

  predicate IsInput(w: Weights, N: nat) {
    |w| >= 1 && forall t :: 0 <= t < |w| ==> |w[t]| == N && forall c :: 0 <= c < N ==> w[t][c] >= 0.0
  }

  function At(w: Weights, t: int, c: int): real {
    if 0 <= t < |w| && 0 <= c < |w[t]| then w[t][c] else 0.0
  }

  predicate Positive(w: Weights, N: nat) {
    IsInput(w, N) && forall t, c :: 0 <= t < |w| && 0 <= c < N ==> w[t][c] > 0.0
  }
}
