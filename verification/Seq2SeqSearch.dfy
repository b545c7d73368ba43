/** Whole searches, and why stopping early is safe. */
module Seq2SeqSearch {
  import opened Seq2SeqBeam
  import Division
  import Sorting
  import TokenOrder

  /** The hypotheses to extend and those that ended. */
  datatype Snapshot = Snapshot(beam: seq<Hypo>, complete: seq<Hypo>)

  predicate Falls(s: seq<Hypo>) {
    forall i, j :: 0 <= i < j < |s| ==> s[i].score >= s[j].score
  }

  /** kept is a best K of all, best first. */
  ghost predicate TopOf(K: nat, all: seq<Hypo>, kept: seq<Hypo>, rest: seq<Hypo>) {
    && multiset(kept) + multiset(rest) == multiset(all) && |kept| == K && Falls(kept)
    && forall i, j :: 0 <= i < |kept| && 0 <= j < |rest| ==> kept[i].score >= rest[j].score
  }

  ghost predicate Trims(K: nat, all: seq<Hypo>, kept: seq<Hypo>) {
    if |all| >= K then exists rest :: TopOf(K, all, kept, rest) else kept == all
  }

  ghost predicate AdvanceVia(model: Model, K: nat, s: Snapshot, order: seq<int>, m: nat, s': Snapshot)
    requires model.nClass > 0
  {
    && IsOrder(model, s.beam, Min(2 * K, |order|), order) && Stops(model, order, K, m)
    && s'.beam == Entries(model, s.beam, Pick(model, order[..m], false))
    && Trims(K, s.complete + Entries(model, s.beam, Pick(model, order[..Min(m, K)], true)), s'.complete)
  }

  ghost predicate Advance(model: Model, K: nat, s: Snapshot, s': Snapshot)
    requires model.nClass > 0
  {
    exists order, m :: AdvanceVia(model, K, s, order, m, s')
  }

  // ---- Scores only fall

  predicate AtMost(s: seq<Hypo>, bound: real) {
    forall i :: 0 <= i < |s| ==> s[i].score <= bound
  }

  predicate Over(s: seq<Hypo>, bound: real) {
    forall i :: 0 <= i < |s| ==> s[i].score > bound
  }

  lemma EntryAtMost(model: Model, beam: seq<Hypo>, k: int, bound: real)
    requires IsModel(model) && AtMost(beam, bound) && IsIndex(model, beam, k)
    ensures Entry(model, beam, k).score <= bound
  {
    hide Class;
    IndexParent(model, beam, k);
    var h := beam[Parent(model, k)];
    assert LogProbs(model, model.step(h.state, if h.path == [] then -1 else h.path[|h.path| - 1]).1);
  }

  lemma EntriesAtMost(model: Model, beam: seq<Hypo>, order: seq<int>, ended: bool, bound: real)
    requires IsModel(model) && AtMost(beam, bound) && forall k :: k in order ==> IsIndex(model, beam, k)
    ensures AtMost(Entries(model, beam, Pick(model, order, ended)), bound)
  {
    hide Pick, Entry, IsIndex, IsModel;
    assert model.nClass > 0 by { ModelClasses(model); }
    var ks := Pick(model, order, ended);
    forall i | 0 <= i < |ks| ensures Entry(model, beam, ks[i]).score <= bound {
      PickMember(model, order, ended, ks[i]);
      EntryAtMost(model, beam, ks[i], bound);
    }
  }

  lemma ModelClasses(model: Model)
    requires IsModel(model)
    ensures model.nClass >= 2
  {
  }

  // ---- Complete hypotheses above every open one stay

  lemma SubMultiset(a: multiset<Hypo>, b: multiset<Hypo>)
    requires a <= b && |a| == |b|
    ensures a == b
  {
    assert b == a + (b - a);
    assert |b - a| == 0;
  }

  lemma CountOver(s: seq<Hypo>, bound: real, x: Hypo)
    ensures Over(s, bound) && x.score <= bound ==> multiset(s)[x] == 0
    ensures AtMost(s, bound) && x.score > bound ==> multiset(s)[x] == 0
  {
    if x in multiset(s) { assert x in s; }
  }

  lemma TopStays(K: nat, complete: seq<Hypo>, more: seq<Hypo>, kept: seq<Hypo>, rest: seq<Hypo>, bound: real)
    requires |complete| == K && Over(complete, bound) && AtMost(more, bound) && TopOf(K, complete + more, kept, rest)
    ensures multiset(kept) == multiset(complete)
  {
    var all := multiset(complete) + multiset(more);
    assert multiset(complete + more) == all;
    if i :| 0 <= i < K && kept[i].score <= bound {
      assert AtMost(rest, bound);
      forall x ensures multiset(complete)[x] <= multiset(kept)[x] {
        CountOver(complete, bound, x);
        CountOver(rest, bound, x);
        CountOver(more, bound, x);
        assert (multiset(kept) + multiset(rest))[x] == all[x];
      }
      SubMultiset(multiset(complete), multiset(kept));
    } else {
      assert Over(kept, bound);
      forall x ensures multiset(kept)[x] <= multiset(complete)[x] {
        CountOver(kept, bound, x);
        CountOver(more, bound, x);
        assert (multiset(kept) + multiset(rest))[x] == all[x];
      }
      SubMultiset(multiset(kept), multiset(complete));
    }
  }

  /** A step after the stopping condition changes nothing in the complete hypotheses. */
  lemma StepAfterStop(model: Model, K: nat, s: Snapshot, s': Snapshot, bound: real)
    requires IsModel(model) && Advance(model, K, s, s') && AtMost(s.beam, bound)
    requires |s.complete| == K && Over(s.complete, bound)
    ensures AtMost(s'.beam, bound) && |s'.complete| == K && Over(s'.complete, bound)
    ensures multiset(s'.complete) == multiset(s.complete)
  {
    hide IsModel, AtMost, Over, Pick, Entries, Stops, IsOrder, TopOf;
    ModelClasses(model);
    var order: seq<int>, m: nat :| AdvanceVia(model, K, s, order, m, s');
    StopsWithin(model, order, K, m);
    OrderIndices(model, s.beam, Min(2 * K, |order|), order, m);
    OrderIndices(model, s.beam, Min(2 * K, |order|), order, Min(m, K));
    EntriesAtMost(model, s.beam, order[..m], false, bound);
    EntriesAtMost(model, s.beam, order[..Min(m, K)], true, bound);
    var more := Entries(model, s.beam, Pick(model, order[..Min(m, K)], true));
    var rest :| TopOf(K, s.complete + more, s'.complete, rest);
    TopSize(K, s.complete + more, s'.complete, rest);
    TopStays(K, s.complete, more, s'.complete, rest, bound);
    SameOver(s.complete, s'.complete, bound);
  }

  lemma TopSize(K: nat, all: seq<Hypo>, kept: seq<Hypo>, rest: seq<Hypo>)
    requires TopOf(K, all, kept, rest)
    ensures |kept| == K
  {
  }

  lemma SameOver(s: seq<Hypo>, t: seq<Hypo>, bound: real)
    requires multiset(s) == multiset(t) && Over(s, bound)
    ensures Over(t, bound)
  {
    forall i | 0 <= i < |t| ensures t[i].score > bound {
      assert t[i] in multiset(t);
      assert t[i] in s;
    }
  }

  lemma OrderIndices(model: Model, beam: seq<Hypo>, P: nat, order: seq<int>, m: nat)
    requires model.nClass > 0 && IsOrder(model, beam, P, order) && m <= |order|
    ensures forall k :: k in order[..m] ==> IsIndex(model, beam, k)
  {
    hide IsIndex;
    assert forall k :: k in order[..m] ==> k in order;
  }

  // ---- Runs

  ghost predicate Run(model: Model, K: nat, states: seq<Snapshot>)
    requires model.nClass > 0
  {
    states != [] && forall i :: 0 <= i < |states| - 1 ==> Advance(model, K, states[i], states[i + 1])
  }

  function Result(s: Snapshot): seq<Hypo> {
    if s.complete == [] then s.beam else s.complete
  }

  /** No open hypothesis can still reach the complete ones. */
  predicate CanStop(K: nat, s: Snapshot) {
    |s.complete| == K >= 1 && s.beam != [] && Falls(s.beam) && Falls(s.complete)
      && s.complete[K - 1].score > s.beam[0].score
  }

  /** Searching on from there, however long, gives the same hypotheses. */
  lemma {:induction false} StopIsSafe(model: Model, K: nat, states: seq<Snapshot>)
    requires IsModel(model) && Run(model, K, states) && CanStop(K, states[0])
    ensures multiset(Result(states[|states| - 1])) == multiset(Result(states[0]))
  {
    var bound := states[0].beam[0].score;
    assert AtMost(states[0].beam, bound) && Over(states[0].complete, bound);
    RunAfterStop(model, K, states, bound);
  }

  lemma {:induction false} RunAfterStop(model: Model, K: nat, states: seq<Snapshot>, bound: real)
    requires IsModel(model) && Run(model, K, states) && K >= 1
    requires AtMost(states[0].beam, bound) && |states[0].complete| == K && Over(states[0].complete, bound)
    ensures var last := states[|states| - 1];
      |last.complete| == K && AtMost(last.beam, bound) && Over(last.complete, bound)
      && multiset(last.complete) == multiset(states[0].complete)
  {
    hide Advance, IsModel, AtMost, Over;
    ModelClasses(model);
    var n := |states| - 1;
    if n > 0 {
      RunAfterStop(model, K, states[..n], bound);
      assert Advance(model, K, states[n - 1], states[n]);
      StepAfterStop(model, K, states[n - 1], states[n], bound);
    }
  }

  // ---- The search as code

  lemma IndexBound(model: Model, beam: seq<Hypo>, k: int)
    requires model.nClass > 0
    ensures IsIndex(model, beam, k) <==> 0 <= k < |beam| * model.nClass
  {
    var n, b, q := model.nClass, |beam|, k / model.nClass;
    Division.Divide(k, n);
    assert (q + 1) * n == q * n + n;
    if q < b { Division.Product(q, b, n); } else { Division.Product(b - 1, q, n); }
  }

  method SortIndices(model: Model, beam: seq<Hypo>, P: nat) returns (order: seq<int>)
    requires model.nClass > 0 && P <= |beam| * model.nClass
    ensures IsOrder(model, beam, P, order)
  {
    hide Entry, IsIndex;
    var scores := seq(|beam| * model.nClass, k requires 0 <= k < |beam| * model.nClass => Entry(model, beam, k).score);
    order := TokenOrder.SortedTokens(scores);
    forall k ensures k in order <==> IsIndex(model, beam, k) { IndexBound(model, beam, k); }
  }

  /** The scan stopped after m entries with these hypotheses. */
  ghost predicate Scanned(model: Model, beam: seq<Hypo>, K: nat, order: seq<int>, m: nat, newBeam: seq<Hypo>,
                          ended: seq<Hypo>)
    requires model.nClass > 0
  {
    && Stops(model, order, K, m)
    && newBeam == Entries(model, beam, Pick(model, order[..m], false))
    && ended == Entries(model, beam, Pick(model, order[..Min(m, K)], true))
  }

  method Scan(model: Model, beam: seq<Hypo>, K: nat, order: seq<int>) returns (newBeam: seq<Hypo>, ended: seq<Hypo>)
    requires model.nClass > 0 && K >= 1 && forall k :: k in order ==> IsIndex(model, beam, k)
    ensures exists m: nat :: Scanned(model, beam, K, order, m, newBeam, ended)
  {
    hide Entry, Class, Parent, Pick, IsIndex;
    newBeam, ended := [], [];
    ghost var m: nat := 0;
    PickNone(model, order[..0]);
    for j := 0 to |order|
      invariant m == j && |newBeam| < K
      invariant newBeam == Entries(model, beam, Pick(model, order[..j], false))
      invariant ended == Entries(model, beam, Pick(model, order[..Min(j, K)], true))
      invariant forall i :: 0 <= i <= j ==> |Pick(model, order[..i], false)| < K
    {
      var k := order[j];
      assert k in order;
      PickSnoc(model, order, j, false);
      if j < K { PickSnoc(model, order, j, true); }
      var x := Expand(model, beam, k);
      if j < K && Class(model, k) == model.eos {
        ended := ended + [x];
      } else if Class(model, k) != model.eos {
        newBeam := newBeam + [x];
      }
      m := j + 1;
      if |newBeam| >= K {
        assert Scanned(model, beam, K, order, m, newBeam, ended);
        return;
      }
    }
    assert Scanned(model, beam, K, order, m, newBeam, ended);
  }

  lemma PickNone(model: Model, order: seq<int>)
    requires model.nClass > 0 && order == []
    ensures Pick(model, order, true) == [] == Pick(model, order, false)
  {
  }

  method Expand(model: Model, beam: seq<Hypo>, k: int) returns (x: Hypo)
    requires model.nClass > 0 && IsIndex(model, beam, k)
    ensures x == Entry(model, beam, k)
  {
    IndexParent(model, beam, k);
    var hypIdx, clsIdx := k / model.nClass, k % model.nClass;
    var (state, row) := StepOf(model, beam[hypIdx]);
    var path := beam[hypIdx].path + [clsIdx];
    if clsIdx == model.eos { path := path[..|path| - 1]; }
    x := Hypo(Scored(model, beam[hypIdx], clsIdx), path, state);
  }

  method Trim(complete: seq<Hypo>, K: nat) returns (kept: seq<Hypo>)
    ensures Trims(K, complete, kept)
  {
    if |complete| < K { return complete; }
    var key := (x: Hypo) => x.score;
    var sorted := Sorting.SortByKey(complete, key);
    assert forall i :: 0 <= i < |sorted| ==> key(sorted[i]) == sorted[i].score;
    kept := sorted[..K];
    ghost var rest := sorted[K..];
    assert sorted == kept + rest;
    assert TopOf(K, complete, kept, rest);
  }

  /** One step: extend, scan, trim. The open hypotheses come out best first. */
  method Step(model: Model, K: nat, beam: seq<Hypo>, complete: seq<Hypo>) returns (newBeam: seq<Hypo>, kept: seq<Hypo>)
    requires IsModel(model) && 1 <= |beam| <= K
    ensures 1 <= |newBeam| <= K && Falls(newBeam)
    ensures Advance(model, K, Snapshot(beam, complete), Snapshot(newBeam, kept))
    ensures Trimmed(K, kept)
  {
    hide IsModel, IsOrder, Stops, Pick, Entry, TopOf, IsIndex, BestOthers;
    ModelClasses(model);
    var n := |beam| * model.nClass;
    assert n >= 0;
    var P := Min(2 * K, n);
    var order := SortIndices(model, beam, P);
    OrderSize(model, beam, P, order);
    OrderIndices(model, beam, P, order, |order|);
    assert order[..|order|] == order;
    var ended;
    newBeam, ended := Scan(model, beam, K, order);
    ghost var m: nat :| Scanned(model, beam, K, order, m, newBeam, ended);
    kept := Trim(complete + ended, K);
    assert AdvanceVia(model, K, Snapshot(beam, complete), order, m, Snapshot(newBeam, kept));
    StopsWithin(model, order, K, m);
    ScanKeepsBest(model, beam, K, order, m);
    ghost var ks := Pick(model, order[..m], false);
    SomeKept(model, beam, K, ks);
    KeptFalls(model, beam, K, ks);
    TrimmedTop(K, complete + ended, kept);
  }

  lemma OrderSize(model: Model, beam: seq<Hypo>, P: nat, order: seq<int>)
    requires model.nClass > 0 && IsOrder(model, beam, P, order)
    ensures |order| == |beam| * model.nClass
  {
  }

  lemma KeptFalls(model: Model, beam: seq<Hypo>, K: nat, ks: seq<int>)
    requires model.nClass > 0 && BestOthers(model, beam, K, ks)
    ensures |ks| <= K && Falls(Entries(model, beam, ks))
  {
    hide Entry, IsIndex;
  }

  predicate Trimmed(K: nat, complete: seq<Hypo>) {
    |complete| <= K && (|complete| == K ==> Falls(complete))
  }

  lemma TrimmedTop(K: nat, all: seq<Hypo>, kept: seq<Hypo>)
    requires Trims(K, all, kept)
    ensures Trimmed(K, kept)
  {
  }

  /** Stopping early does not change what is found: any search that goes on to maxLen
      steps from where this one stopped ends with the same hypotheses. */
  method BeamSearch(model: Model, beam0: seq<Hypo>, K: nat, maxLen: nat)
    returns (result: seq<Hypo>, ghost states: seq<Snapshot>)
    requires IsModel(model) && 1 <= |beam0| <= K
    ensures Run(model, K, states) && states[0] == Snapshot(beam0, []) && |states| - 1 <= maxLen
    ensures result == Result(states[|states| - 1]) && result != []
    ensures forall full :: Run(model, K, full) && |full| - 1 == maxLen && full[..|states|] == states ==>
              multiset(Result(full[maxLen])) == multiset(result)
  {
    hide IsModel, Advance, Falls;
    ModelClasses(model);
    var beam, complete := beam0, [];
    states := [Snapshot(beam, complete)];
    for l := 0 to maxLen
      invariant |states| == l + 1 && Run(model, K, states) && states[0] == Snapshot(beam0, [])
      invariant states[l] == Snapshot(beam, complete) && 1 <= |beam| <= K
    {
      beam, complete := Step(model, K, beam, complete);
      states := states + [Snapshot(beam, complete)];
      if |complete| >= K && complete[|complete| - 1].score > beam[0].score {
        forall full | Run(model, K, full) && |full| - 1 == maxLen && full[..|states|] == states
          ensures multiset(Result(full[maxLen])) == multiset(Result(Snapshot(beam, complete)))
        {
          StopInRun(model, K, full, l + 1, states);
        }
        break;
      }
    }
    result := if complete == [] then beam else complete;
  }

  lemma StopInRun(model: Model, K: nat, full: seq<Snapshot>, l: nat, states: seq<Snapshot>)
    requires IsModel(model) && Run(model, K, full) && l < |full| && |states| == l + 1 && full[..l + 1] == states
    requires CanStop(K, states[l])
    ensures multiset(Result(full[|full| - 1])) == multiset(Result(states[l]))
  {
    hide Advance, IsModel;
    ModelClasses(model);
    assert states[l] == full[..l + 1][l] == full[l];
    StopIsSafe(model, K, full[l..]);
  }
}
