/** What node and edge masses mean: the summed weight of the paths that pass
    through the states, or along the edges, that a predicate admits. */
module Posteriors {
  import opened Sums
  import opened Trellises

  /** The mass of the admitted states of frame t. */
  function NodeMassWhere(tr: Trellis, t: nat, keep: int -> bool): real {
    Sum(tr.S, s => if keep(s) then NodeMass(tr, t, s) else 0.0)
  }

  /** The mass of the admitted edges from frame t to frame t + 1. */
  function EdgeMassWhere(tr: Trellis, t: nat, keep: (int, int) -> bool): real {
    Sum(tr.S, s => Sum(tr.S, p => if keep(p, s) then EdgeMass(tr, t, p, s) else 0.0))
  }

  /** The summed weight of all paths that are in an admitted state at frame t. */
  function PathsThrough(tr: Trellis, t: nat, keep: int -> bool): real {
    SumSequences(tr.S, tr.T, path => if |path| > t && keep(path[t]) then PathWeight(tr, path) else 0.0)
  }

  /** The summed weight of all paths that leave frame t along an admitted edge. */
  function PathsAlong(tr: Trellis, t: nat, keep: (int, int) -> bool): real {
    SumSequences(tr.S, tr.T, path => if |path| > t + 1 && keep(path[t], path[t + 1]) then PathWeight(tr, path) else 0.0)
  }

  lemma {:induction false} RestrictedPrefix(tr: Trellis, t: nat, keep: int -> bool, path: seq<int>)
    requires |path| >= 1
    ensures PrefixWeight(Restrict(tr, t, keep), path)
         == if |path| > t && !keep(path[t]) then 0.0 else PrefixWeight(tr, path)
  {
    if |path| > 1 {
      hide PrefixWeight;
      RestrictedPrefix(tr, t, keep, path[..|path| - 1]);
      PrefixWeightStep(tr, path);
      PrefixWeightStep(Restrict(tr, t, keep), path);
    }
  }

  lemma NodeMassIsPaths(tr: Trellis, t: nat, keep: int -> bool)
    requires t < tr.T
    ensures NodeMassWhere(tr, t, keep) == PathsThrough(tr, t, keep)
  {
    hide PrefixWeight, Sum, Total, NodeMass, SumExtensions;
    var b := Restrict(tr, t, keep);
    RestrictedTotal(tr, t, keep);
    TotalIsPathSum(b);
    var f: seq<int> -> real := path => PathWeight(b, path);
    var g: seq<int> -> real := path => if |path| > t && keep(path[t]) then PathWeight(tr, path) else 0.0;
    forall path: seq<int> | |path| == tr.T ensures f(path) == g(path) {
      RestrictedPrefix(tr, t, keep, path);
    }
    hide PathWeight;
    SumExtensionsExt(tr.S, [], tr.T, f, g);
  }

  // ---- The same for edges

  function RestrictEdges(tr: Trellis, t: nat, keep: (int, int) -> bool): Trellis {
    tr.(step := (u, p, s) => if u == t + 1 && !keep(p, s) then 0.0 else tr.step(u, p, s))
  }

  lemma RestrictedEdgesNode(tr: Trellis, t: nat, keep: (int, int) -> bool, s: int)
    requires t + 1 < tr.T && 0 <= s < tr.S
    ensures NodeMass(RestrictEdges(tr, t, keep), t + 1, s)
         == Sum(tr.S, p => if keep(p, s) then EdgeMass(tr, t, p, s) else 0.0)
  {
    hide Alpha, Beta, Sum, NodeMass;
    var b := RestrictEdges(tr, t, keep);
    BetaLocal(tr, b, t + 1, s);
    NodeIn(b, t, s);
    forall p | 0 <= p < tr.S
      ensures EdgeMass(b, t, p, s) == if keep(p, s) then EdgeMass(tr, t, p, s) else 0.0 {
      AlphaLocal(tr, b, t, p);
    }
    hide EdgeMass;
    SumExt(tr.S, p => EdgeMass(b, t, p, s), p => if keep(p, s) then EdgeMass(tr, t, p, s) else 0.0);
  }

  lemma {:induction false} RestrictedEdgesPrefix(tr: Trellis, t: nat, keep: (int, int) -> bool, path: seq<int>)
    requires |path| >= 1
    ensures PrefixWeight(RestrictEdges(tr, t, keep), path)
         == if |path| > t + 1 && !keep(path[t], path[t + 1]) then 0.0 else PrefixWeight(tr, path)
  {
    if |path| > 1 {
      hide PrefixWeight;
      RestrictedEdgesPrefix(tr, t, keep, path[..|path| - 1]);
      PrefixWeightStep(tr, path);
      PrefixWeightStep(RestrictEdges(tr, t, keep), path);
    }
  }

  lemma EdgeMassIsPaths(tr: Trellis, t: nat, keep: (int, int) -> bool)
    requires t + 1 < tr.T
    ensures EdgeMassWhere(tr, t, keep) == PathsAlong(tr, t, keep)
  {
    hide PrefixWeight, Sum, Total, NodeMass, EdgeMass, SumExtensions;
    var b, u := RestrictEdges(tr, t, keep), t + 1;
    forall s | 0 <= s < tr.S
      ensures NodeMass(b, u, s) == Sum(tr.S, p => if keep(p, s) then EdgeMass(tr, t, p, s) else 0.0) {
      RestrictedEdgesNode(tr, t, keep, s);
    }
    SumExt(tr.S, s => NodeMass(b, u, s), s => Sum(tr.S, p => if keep(p, s) then EdgeMass(tr, t, p, s) else 0.0));
    FrameFlow(b, u);
    TotalIsPathSum(b);
    var f: seq<int> -> real := path => PathWeight(b, path);
    var g: seq<int> -> real := path => if |path| > t + 1 && keep(path[t], path[t + 1]) then PathWeight(tr, path)
      else 0.0;
    forall path: seq<int> | |path| == tr.T ensures f(path) == g(path) {
      RestrictedEdgesPrefix(tr, t, keep, path);
    }
    hide PathWeight;
    SumExtensionsExt(tr.S, [], tr.T, f, g);
  }
}
