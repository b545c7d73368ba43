/** The weighted trellis behind the CTC, force-alignment and full-connection
    criteria: S states at each of T frames. Scores are kept in the
    exponentiated domain, so a log-sum-exp is a sum and a sum of log scores is a
    product. `Alpha` and `Beta` are the unbanded forward and backward recursions;
    the theorems tie them to sums over all S^T state paths. */
module Trellises {
  import opened Sums

  datatype Trellis = Trellis(
    T: nat,                          // number of frames
    S: nat,                          // number of states
    init: int -> real,               // weight of starting in a state at frame 0
    step: (int, int, int) -> real,   // (t, p, s): weight of moving from p at t - 1 to s at t
    fin: int -> real)                // weight of ending in a state at frame T - 1

  function Alpha(tr: Trellis, t: nat, s: int): real {
    if t == 0 then tr.init(s) else Sum(tr.S, p => Alpha(tr, t - 1, p) * tr.step(t, p, s))
  }

  function Beta(tr: Trellis, t: nat, s: int): real
    decreases tr.T - t
  {
    if t + 1 >= tr.T then tr.fin(s) else Sum(tr.S, q => tr.step(t + 1, s, q) * Beta(tr, t + 1, q))
  }

  /** What state s at frame t + 1 receives from state p at frame t. */
  function Incoming(tr: Trellis, t: nat, p: int, s: int): real {
    Alpha(tr, t, p) * tr.step(t + 1, p, s)
  }

  /** What state s at frame t is owed through state q at frame t + 1. */
  function Outgoing(tr: Trellis, t: nat, s: int, q: int): real {
    tr.step(t + 1, s, q) * Beta(tr, t + 1, q)
  }

  /** The mass the trellis carries through one state of one frame. */
  function NodeMass(tr: Trellis, t: nat, s: int): real {
    Alpha(tr, t, s) * Beta(tr, t, s)
  }

  /** The mass the trellis carries from state p at frame t to s at t + 1. */
  function EdgeMass(tr: Trellis, t: nat, p: int, s: int): real {
    Alpha(tr, t, p) * tr.step(t + 1, p, s) * Beta(tr, t + 1, s)
  }

  function Total(tr: Trellis): real
    requires tr.T >= 1
  {
    Sum(tr.S, s => NodeMass(tr, tr.T - 1, s))
  }

  // ---- Paths

  function PrefixWeight(tr: Trellis, path: seq<int>): real
    requires |path| >= 1
  {
    var n := |path| - 1;
    if n == 0 then tr.init(path[0])
    else PrefixWeight(tr, path[..n]) * tr.step(n, path[n - 1], path[n])
  }

  /** The product of all weights along a state path. */
  function PathWeight(tr: Trellis, path: seq<int>): real {
    if path == [] then 0.0 else PrefixWeight(tr, path) * tr.fin(path[|path| - 1])
  }

  // ---- One step of each recursion, with the recursive functions hidden from here on

  lemma AlphaFirst(tr: Trellis, s: int)
    ensures Alpha(tr, 0, s) == tr.init(s)
  {
  }

  lemma AlphaNext(tr: Trellis, t: nat, s: int)
    ensures Alpha(tr, t + 1, s) == Sum(tr.S, p => Incoming(tr, t, p, s))
  {
    SumExt(tr.S, p => Alpha(tr, t + 1 - 1, p) * tr.step(t + 1, p, s), p => Incoming(tr, t, p, s));
  }

  lemma BetaLast(tr: Trellis, s: int)
    requires tr.T >= 1
    ensures Beta(tr, tr.T - 1, s) == tr.fin(s)
  {
  }

  lemma BetaNext(tr: Trellis, t: nat, s: int)
    requires t + 1 < tr.T
    ensures Beta(tr, t, s) == Sum(tr.S, q => Outgoing(tr, t, s, q))
  {
    SumExt(tr.S, q => tr.step(t + 1, s, q) * Beta(tr, t + 1, q), q => Outgoing(tr, t, s, q));
  }

  lemma PrefixWeightStep(tr: Trellis, path: seq<int>)
    requires |path| > 1
    ensures PrefixWeight(tr, path)
         == PrefixWeight(tr, path[..|path| - 1]) * tr.step(|path| - 1, path[|path| - 2], path[|path| - 1])
  {
  }

  lemma PrefixWeightSnoc(tr: Trellis, prefix: seq<int>, c: int)
    requires prefix != []
    ensures PrefixWeight(tr, prefix + [c]) == PrefixWeight(tr, prefix) * tr.step(|prefix|, prefix[|prefix| - 1], c)
  {
    hide PrefixWeight;
    assert (prefix + [c])[..|prefix|] == prefix;
    PrefixWeightStep(tr, prefix + [c]);
  }

  // ---- The flow through every frame is the same

  /** What enters a state is what passes through it... */
  lemma NodeIn(tr: Trellis, t: nat, s: int)
    ensures NodeMass(tr, t + 1, s) == Sum(tr.S, p => EdgeMass(tr, t, p, s))
  {
    hide Alpha, Beta, Sum;
    AlphaNext(tr, t, s);
    SumScale(tr.S, Beta(tr, t + 1, s), p => Incoming(tr, t, p, s), p => EdgeMass(tr, t, p, s));
  }

  /** ... and what leaves it. */
  lemma NodeOut(tr: Trellis, t: nat, p: int)
    requires t + 1 < tr.T
    ensures NodeMass(tr, t, p) == Sum(tr.S, s => EdgeMass(tr, t, p, s))
  {
    hide Alpha, Beta, Sum;
    BetaNext(tr, t, p);
    SumScale(tr.S, Alpha(tr, t, p), q => Outgoing(tr, t, p, q), s => EdgeMass(tr, t, p, s));
  }

  lemma FlowStep(tr: Trellis, t: nat)
    requires t + 1 < tr.T
    ensures Sum(tr.S, s => NodeMass(tr, t, s)) == Sum(tr.S, s => NodeMass(tr, t + 1, s))
    ensures Sum(tr.S, s => NodeMass(tr, t, s)) == Sum(tr.S, s => Sum(tr.S, p => EdgeMass(tr, t, p, s)))
  {
    hide Sum, NodeMass, EdgeMass;
    var edge: (int, int) -> real := (p, s) => EdgeMass(tr, t, p, s);
    var before: int -> real := s => NodeMass(tr, t, s);
    var after: int -> real := s => NodeMass(tr, t + 1, s);
    var leaving: int -> real := p => Sum(tr.S, s => edge(p, s));
    var entering: int -> real := s => Sum(tr.S, p => edge(p, s));
    forall p | 0 <= p < tr.S ensures before(p) == leaving(p) {
      NodeOut(tr, t, p);
      SumExt(tr.S, s => edge(p, s), s => EdgeMass(tr, t, p, s));
    }
    forall s | 0 <= s < tr.S ensures after(s) == entering(s) == Sum(tr.S, p => EdgeMass(tr, t, p, s)) {
      NodeIn(tr, t, s);
      SumExt(tr.S, p => edge(p, s), p => EdgeMass(tr, t, p, s));
    }
    SumExt(tr.S, before, leaving);
    SumExt(tr.S, after, entering);
    SumExt(tr.S, after, s => Sum(tr.S, p => EdgeMass(tr, t, p, s)));
    SumSwap(tr.S, tr.S, edge);
  }

  /** Forward-backward duality: every frame carries the whole total. */
  lemma {:induction false} FrameFlow(tr: Trellis, t: nat)
    requires t < tr.T
    ensures Sum(tr.S, s => NodeMass(tr, t, s)) == Total(tr)
    decreases tr.T - t
  {
    hide Sum, NodeMass;
    if t + 1 < tr.T {
      FlowStep(tr, t);
      FrameFlow(tr, t + 1);
    }
  }

  /** The edges between two frames also carry the whole total. */
  lemma EdgeFlow(tr: Trellis, t: nat)
    requires t + 1 < tr.T
    ensures Sum(tr.S, s => Sum(tr.S, p => EdgeMass(tr, t, p, s))) == Total(tr)
  {
    hide Sum, NodeMass, EdgeMass;
    FlowStep(tr, t);
    FrameFlow(tr, t);
  }

  // ---- The total is the sum over all paths

  lemma MulAssoc(x: real, y: real, z: real)
    ensures (x * y) * z == x * (y * z)
  {
  }

  /** The summed weight of all completions of a path prefix. */
  function Completions(tr: Trellis, prefix: seq<int>): real
    requires |prefix| <= tr.T
  {
    SumExtensions(tr.S, prefix, tr.T - |prefix|, path => PathWeight(tr, path))
  }

  lemma {:induction false} PathsFrom(tr: Trellis, prefix: seq<int>)
    requires 1 <= |prefix| <= tr.T
    ensures Completions(tr, prefix) == PrefixWeight(tr, prefix) * Beta(tr, |prefix| - 1, prefix[|prefix| - 1])
    decreases tr.T - |prefix|
  {
    hide PrefixWeight, Beta, Sum;
    var t, v := |prefix|, |prefix| - 1;
    if t < tr.T {
      var f: seq<int> -> real := path => PathWeight(tr, path);
      var out: int -> real := q => Outgoing(tr, v, prefix[v], q);
      var ext: int -> real := c => SumExtensions(tr.S, prefix + [c], tr.T - t - 1, f);
      forall c | 0 <= c < tr.S ensures ext(c) == PrefixWeight(tr, prefix) * out(c) {
        PathsFrom(tr, prefix + [c]);
        PrefixWeightSnoc(tr, prefix, c);
        MulAssoc(PrefixWeight(tr, prefix), tr.step(t, prefix[v], c), Beta(tr, t, c));
      }
      SumScale(tr.S, PrefixWeight(tr, prefix), out, ext);
      BetaNext(tr, v, prefix[v]);
      assert Sum(tr.S, ext) == Completions(tr, prefix);
    } else {
      BetaLast(tr, prefix[v]);
    }
  }

  lemma PathsFromState(tr: Trellis, s: int)
    requires tr.T >= 1
    ensures Completions(tr, [s]) == NodeMass(tr, 0, s)
  {
    hide Beta, SumExtensions;
    PathsFrom(tr, [s]);
  }

  /** The forward total is the sum of the weights of all S^T state paths. */
  lemma TotalIsPathSum(tr: Trellis)
    requires tr.T >= 1
    ensures Total(tr) == SumSequences(tr.S, tr.T, path => PathWeight(tr, path))
  {
    hide Sum, NodeMass, PathWeight;
    var f: seq<int> -> real := path => PathWeight(tr, path);
    var ext: int -> real := c => SumExtensions(tr.S, [] + [c], tr.T - 1, f);
    forall c ensures ext(c) == NodeMass(tr, 0, c) {
      assert [] + [c] == [c];
      PathsFromState(tr, c);
    }
    SumExt(tr.S, ext, s => NodeMass(tr, 0, s));
    FrameFlow(tr, 0);
  }

  // ---- Locality: Alpha looks back, Beta looks ahead

  /** a and b move alike into the frames lo..hi. */
  ghost predicate SameSteps(a: Trellis, b: Trellis, lo: int, hi: int) {
    forall u, i, j :: lo <= u <= hi && 0 <= i < a.S && 0 <= j < a.S ==> a.step(u, i, j) == b.step(u, i, j)
  }

  lemma {:induction false} AlphaLocal(a: Trellis, b: Trellis, t: nat, s: int)
    requires a.S == b.S && 0 <= s < a.S && SameSteps(a, b, 1, t)
    requires forall i :: 0 <= i < a.S ==> a.init(i) == b.init(i)
    ensures Alpha(a, t, s) == Alpha(b, t, s)
  {
    if t > 0 {
      hide Alpha, Sum;
      var v := t - 1;
      forall p | 0 <= p < a.S ensures Incoming(a, v, p, s) == Incoming(b, v, p, s) {
        AlphaLocal(a, b, v, p);
      }
      AlphaNext(a, v, s);
      AlphaNext(b, v, s);
      SumExt(a.S, p => Incoming(a, v, p, s), p => Incoming(b, v, p, s));
    }
  }

  lemma {:induction false} BetaLocal(a: Trellis, b: Trellis, t: nat, s: int)
    requires a.S == b.S && a.T == b.T && 0 <= s < a.S && SameSteps(a, b, t + 1, a.T - 1)
    requires forall i :: 0 <= i < a.S ==> a.fin(i) == b.fin(i)
    ensures Beta(a, t, s) == Beta(b, t, s)
    decreases a.T - t
  {
    if t + 1 < a.T {
      hide Beta, Sum;
      forall q | 0 <= q < a.S ensures Outgoing(a, t, s, q) == Outgoing(b, t, s, q) {
        BetaLocal(a, b, t + 1, q);
      }
      BetaNext(a, t, s);
      BetaNext(b, t, s);
      SumExt(a.S, q => Outgoing(a, t, s, q), q => Outgoing(b, t, s, q));
    }
  }

  lemma TotalLocal(a: Trellis, b: Trellis)
    requires a.T == b.T >= 1 && a.S == b.S && SameSteps(a, b, 1, a.T - 1)
    requires forall i :: 0 <= i < a.S ==> a.init(i) == b.init(i) && a.fin(i) == b.fin(i)
    ensures Total(a) == Total(b)
  {
    hide Alpha, Beta, Sum;
    var t := a.T - 1;
    forall s | 0 <= s < a.S ensures NodeMass(a, t, s) == NodeMass(b, t, s) {
      AlphaLocal(a, b, t, s);
      BetaLocal(a, b, t, s);
    }
    SumExt(a.S, s => NodeMass(a, a.T - 1, s), s => NodeMass(b, b.T - 1, s));
  }

  // ---- Restricting one frame: the posterior of a set of states

  /** tr with the states at frame t restricted to those keep admits. */
  function Restrict(tr: Trellis, t: nat, keep: int -> bool): Trellis {
    tr.(init := s => if t == 0 && !keep(s) then 0.0 else tr.init(s),
        step := (u, p, s) => if u == t && !keep(s) then 0.0 else tr.step(u, p, s))
  }

  lemma RestrictedAlpha(tr: Trellis, t: nat, keep: int -> bool, s: int)
    requires 0 <= s < tr.S
    ensures Alpha(Restrict(tr, t, keep), t, s) == if keep(s) then Alpha(tr, t, s) else 0.0
  {
    var b := Restrict(tr, t, keep);
    if t > 0 {
      hide Alpha, Sum;
      var v := t - 1;
      AlphaNext(tr, v, s);
      AlphaNext(b, v, s);
      if keep(s) {
        forall p | 0 <= p < tr.S ensures Incoming(tr, v, p, s) == Incoming(b, v, p, s) {
          AlphaLocal(tr, b, v, p);
        }
        SumExt(tr.S, p => Incoming(tr, v, p, s), p => Incoming(b, v, p, s));
      } else {
        SumZero(tr.S, p => Incoming(b, v, p, s));
      }
    }
  }

  /** Restricting one frame leaves exactly the mass through the states kept. */
  lemma RestrictedTotal(tr: Trellis, t: nat, keep: int -> bool)
    requires t < tr.T
    ensures Total(Restrict(tr, t, keep)) == Sum(tr.S, s => if keep(s) then NodeMass(tr, t, s) else 0.0)
  {
    hide Sum, Alpha, Beta;
    var b := Restrict(tr, t, keep);
    forall s | 0 <= s < tr.S ensures NodeMass(b, t, s) == if keep(s) then NodeMass(tr, t, s) else 0.0 {
      BetaLocal(tr, b, t, s);
      RestrictedAlpha(tr, t, keep, s);
    }
    SumExt(tr.S, s => NodeMass(b, t, s), s => if keep(s) then NodeMass(tr, t, s) else 0.0);
    FrameFlow(b, t);
  }

  // ---- Signs

  ghost predicate Nonneg(tr: Trellis) {
    && (forall i :: 0 <= i < tr.S ==> tr.init(i) >= 0.0 && tr.fin(i) >= 0.0)
    && (forall u, i, j :: 1 <= u < tr.T && 0 <= i < tr.S && 0 <= j < tr.S ==> tr.step(u, i, j) >= 0.0)
  }

  lemma {:induction false} AlphaNonneg(tr: Trellis, t: nat, s: int)
    requires Nonneg(tr) && t < tr.T && 0 <= s < tr.S
    ensures Alpha(tr, t, s) >= 0.0
  {
    if t > 0 {
      hide Alpha, Sum;
      var v := t - 1;
      forall p | 0 <= p < tr.S ensures Incoming(tr, v, p, s) >= 0.0 {
        AlphaNonneg(tr, v, p);
      }
      AlphaNext(tr, v, s);
      SumNonneg(tr.S, p => Incoming(tr, v, p, s));
    }
  }

  lemma {:induction false} BetaNonneg(tr: Trellis, t: nat, s: int)
    requires Nonneg(tr) && t < tr.T && 0 <= s < tr.S
    ensures Beta(tr, t, s) >= 0.0
    decreases tr.T - t
  {
    if t + 1 < tr.T {
      hide Beta, Sum;
      forall q | 0 <= q < tr.S ensures Outgoing(tr, t, s, q) >= 0.0 {
        BetaNonneg(tr, t + 1, q);
      }
      BetaNext(tr, t, s);
      SumNonneg(tr.S, q => Outgoing(tr, t, s, q));
    }
  }

  lemma AlphaPositive(tr: Trellis, t: nat, p: int, s: int)
    requires Nonneg(tr) && t + 1 < tr.T && 0 <= p < tr.S && 0 <= s < tr.S
    requires Alpha(tr, t, p) > 0.0 && tr.step(t + 1, p, s) > 0.0
    ensures Alpha(tr, t + 1, s) > 0.0
  {
    hide Alpha, Sum;
    forall i | 0 <= i < tr.S ensures Incoming(tr, t, i, s) >= 0.0 { AlphaNonneg(tr, t, i); }
    AlphaNext(tr, t, s);
    SumTerm(tr.S, i => Incoming(tr, t, i, s), p);
  }

  lemma BetaPositive(tr: Trellis, t: nat, s: int, q: int)
    requires Nonneg(tr) && t + 1 < tr.T && 0 <= s < tr.S && 0 <= q < tr.S
    requires Beta(tr, t + 1, q) > 0.0 && tr.step(t + 1, s, q) > 0.0
    ensures Beta(tr, t, s) > 0.0
  {
    hide Beta, Sum;
    forall i | 0 <= i < tr.S ensures Outgoing(tr, t, s, i) >= 0.0 { BetaNonneg(tr, t + 1, i); }
    BetaNext(tr, t, s);
    SumTerm(tr.S, i => Outgoing(tr, t, s, i), q);
  }
}
