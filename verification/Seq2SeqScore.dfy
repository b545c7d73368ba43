/** What the hypotheses of a sequence-to-sequence search are worth, from their tokens alone. */
module Seq2SeqScore {
  import opened Seq2SeqBeam
  import opened Seq2SeqSearch

  // ---- A token sequence fed to the model

  /** What the model is fed to predict the path: a start mark and then the path itself. */
  function Inputs(path: seq<int>): seq<int> {
    [-1] + path
  }

  /** The state after feeding the inputs one by one. */
  function StateAfter(model: Model, start: int, inputs: seq<int>): int {
    if inputs == [] then start
    else
      var n := |inputs| - 1;
      model.step(StateAfter(model, start, inputs[..n]), inputs[n]).0
  }

  /** The log-probability of class c after the path. */
  function Next(model: Model, start: int, path: seq<int>, c: int): real {
    var inputs := Inputs(path);
    var row := model.step(StateAfter(model, start, inputs[..|path|]), inputs[|path|]).1;
    if 0 <= c < |row| then row[c] else 0.0
  }

  /** The log-probability of the whole path. */
  function LogProb(model: Model, start: int, path: seq<int>): real {
    if path == [] then 0.0
    else
      var n := |path| - 1;
      LogProb(model, start, path[..n]) + Next(model, start, path[..n], path[n])
  }

  // ---- Every hypothesis of every search

  predicate AreTokens(model: Model, path: seq<int>) {
    forall i :: 0 <= i < |path| ==> 0 <= path[i] < model.nClass && path[i] != model.eos
  }

  /** An open hypothesis after l steps: its path, what the model made of it, and its score. */
  predicate IsOpen(model: Model, start: int, l: nat, h: Hypo) {
    && |h.path| == l && AreTokens(model, h.path)
    && h.state == StateAfter(model, start, Inputs(h.path)[..l]) && h.score == LogProb(model, start, h.path)
  }

  /** A complete one: the end of the sentence is paid for and not part of the path. */
  predicate IsClosed(model: Model, start: int, l: nat, h: Hypo) {
    && |h.path| < l && AreTokens(model, h.path)
    && h.score == LogProb(model, start, h.path) + Next(model, start, h.path, model.eos)
  }

  lemma StateNext(model: Model, start: int, path: seq<int>)
    ensures StateAfter(model, start, Inputs(path))
      == model.step(StateAfter(model, start, Inputs(path)[..|path|]), if path == [] then -1 else path[|path| - 1]).0
  {
    assert Inputs(path)[|path|] == if path == [] then -1 else path[|path| - 1];
  }

  lemma ExtendedMeans(model: Model, start: int, l: nat, h: Hypo, c: int)
    requires IsOpen(model, start, l, h) && 0 <= c < model.nClass
    ensures c != model.eos ==> IsOpen(model, start, l + 1, Extended(model, h, c))
    ensures c == model.eos ==> IsClosed(model, start, l + 1, Extended(model, h, c))
  {
    hide StateAfter, LogProb;
    StateNext(model, start, h.path);
    var path := h.path + [c];
    assert Inputs(path)[..l + 1] == Inputs(h.path);
    LogProbSnoc(model, start, h.path, c);
    assert Inputs(h.path)[l] == if h.path == [] then -1 else h.path[l - 1];
  }

  lemma LogProbSnoc(model: Model, start: int, path: seq<int>, c: int)
    ensures LogProb(model, start, path + [c]) == LogProb(model, start, path) + Next(model, start, path, c)
  {
    hide Next;
    assert (path + [c])[..|path|] == path;
  }

  ghost predicate AllOpen(model: Model, start: int, l: nat, beam: seq<Hypo>) {
    forall i :: 0 <= i < |beam| ==> IsOpen(model, start, l, beam[i])
  }

  ghost predicate AllClosed(model: Model, start: int, l: nat, complete: seq<Hypo>) {
    forall i :: 0 <= i < |complete| ==> IsClosed(model, start, l, complete[i])
  }

  lemma EntryMeans(model: Model, start: int, l: nat, beam: seq<Hypo>, k: int)
    requires model.nClass > 0 && AllOpen(model, start, l, beam) && IsIndex(model, beam, k)
    ensures Class(model, k) != model.eos ==> IsOpen(model, start, l + 1, Entry(model, beam, k))
    ensures Class(model, k) == model.eos ==> IsClosed(model, start, l + 1, Entry(model, beam, k))
  {
    hide IsOpen, IsClosed, Extended;
    IndexParent(model, beam, k);
    assert 0 <= Class(model, k) < model.nClass;
    ExtendedMeans(model, start, l, beam[Parent(model, k)], Class(model, k));
  }

  lemma EntriesMean(model: Model, start: int, l: nat, beam: seq<Hypo>, order: seq<int>)
    requires model.nClass > 0 && AllOpen(model, start, l, beam) && forall k :: k in order ==> IsIndex(model, beam, k)
    ensures AllOpen(model, start, l + 1, Entries(model, beam, Pick(model, order, false)))
    ensures AllClosed(model, start, l + 1, Entries(model, beam, Pick(model, order, true)))
  {
    hide IsOpen, IsClosed, Entry, Pick, IsIndex, Class;
    var open, ended := Pick(model, order, false), Pick(model, order, true);
    forall i | 0 <= i < |open| ensures IsOpen(model, start, l + 1, Entry(model, beam, open[i])) {
      PickMember(model, order, false, open[i]);
      EntryMeans(model, start, l, beam, open[i]);
    }
    forall i | 0 <= i < |ended| ensures IsClosed(model, start, l + 1, Entry(model, beam, ended[i])) {
      PickMember(model, order, true, ended[i]);
      EntryMeans(model, start, l, beam, ended[i]);
    }
  }

  lemma TrimsMember(K: nat, all: seq<Hypo>, kept: seq<Hypo>, i: int)
    requires Trims(K, all, kept) && 0 <= i < |kept|
    ensures kept[i] in all
  {
    if |all| >= K {
      var rest :| TopOf(K, all, kept, rest);
      assert kept[i] in multiset(kept);
      assert kept[i] in multiset(all);
    }
  }

  lemma AdvanceMeans(model: Model, start: int, K: nat, l: nat, s: Snapshot, s': Snapshot)
    requires model.nClass > 0 && Advance(model, K, s, s')
    requires AllOpen(model, start, l, s.beam) && AllClosed(model, start, l, s.complete)
    ensures AllOpen(model, start, l + 1, s'.beam) && AllClosed(model, start, l + 1, s'.complete)
  {
    hide IsOpen, LogProb, Next, Pick, Entries, Stops, IsOrder, Trims, AreTokens;
    var order: seq<int>, m: nat :| AdvanceVia(model, K, s, order, m, s');
    StopsWithin(model, order, K, m);
    OrderIndices(model, s.beam, Min(2 * K, |order|), order, m);
    OrderIndices(model, s.beam, Min(2 * K, |order|), order, Min(m, K));
    EntriesMean(model, start, l, s.beam, order[..m]);
    EntriesMean(model, start, l, s.beam, order[..Min(m, K)]);
    var all := s.complete + Entries(model, s.beam, Pick(model, order[..Min(m, K)], true));
    forall i | 0 <= i < |s'.complete| ensures IsClosed(model, start, l + 1, s'.complete[i]) {
      TrimsMember(K, all, s'.complete, i);
    }
  }

  /** In every search from the empty hypothesis, every open hypothesis has the state and the
      log-probability of its path, and every complete one that and the end of the sentence. */
  lemma {:induction false} RunMeans(model: Model, start: int, K: nat, states: seq<Snapshot>, l: nat)
    requires model.nClass > 0 && Run(model, K, states) && l < |states|
    requires states[0] == Snapshot([Hypo(0.0, [], start)], [])
    ensures AllOpen(model, start, l, states[l].beam) && AllClosed(model, start, l, states[l].complete)
  {
    hide AllOpen, AllClosed, Advance;
    if l == 0 {
      StartMeans(model, start);
    } else {
      RunMeans(model, start, K, states, l - 1);
      assert Advance(model, K, states[l - 1], states[l - 1 + 1]);
      AdvanceMeans(model, start, K, l - 1, states[l - 1], states[l]);
    }
  }

  lemma StartMeans(model: Model, start: int)
    ensures AllOpen(model, start, 0, [Hypo(0.0, [], start)]) && AllClosed(model, start, 0, [])
  {
  }

  // ---- Which ends are collected

  /** top is a best n of all extensions. */
  ghost predicate BestOf(model: Model, beam: seq<Hypo>, n: nat, top: seq<int>)
    requires model.nClass > 0
  {
    && |top| == n && Distinct(top) && (forall k :: k in top ==> IsIndex(model, beam, k))
    && forall i, k :: 0 <= i < n && IsIndex(model, beam, k) && k !in top ==>
         Entry(model, beam, top[i]).score >= Entry(model, beam, k).score
  }

  /** A step collects the ends among the best K extensions. */
  lemma EndsAreBest(model: Model, K: nat, s: Snapshot, s': Snapshot) returns (top: seq<int>)
    requires model.nClass > 0 && Advance(model, K, s, s')
    ensures BestOf(model, s.beam, Min(K, |s.beam| * model.nClass), top)
    ensures Trims(K, s.complete + Entries(model, s.beam, Pick(model, top, true)), s'.complete)
  {
    hide Entry, IsIndex, Pick, Trims;
    var order: seq<int>, m: nat :| AdvanceVia(model, K, s, order, m, s');
    var n := Min(K, |order|);
    top := order[..n];
    if m < n { PickSizes(model, order[..m]); }
    assert n == Min(m, K);
    forall i, k | 0 <= i < n && IsIndex(model, s.beam, k) && k !in top
      ensures Entry(model, s.beam, top[i]).score >= Entry(model, s.beam, k).score
    {
      assert k in order;
      var j :| 0 <= j < |order| && order[j] == k;
    }
  }
}
