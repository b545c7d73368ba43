/** Beam search of the sequence-to-sequence criterion. */
module Seq2SeqBeam {

  datatype Hypo = Hypo(score: real, path: seq<int>, state: int)

  /** One decoder step: the new state and the log-probabilities of the classes,
      from a state and the last token (-1 when there is none). */
  datatype Model = Model(nClass: nat, eos: int, step: (int, int) -> (int, seq<real>))

  ghost predicate IsModel(model: Model) {
    && model.nClass >= 2 && 0 <= model.eos < model.nClass
    && (forall s, y :: LogProbs(model, model.step(s, y).1))
  }

  predicate LogProbs(model: Model, row: seq<real>) {
    |row| == model.nClass && forall c :: 0 <= c < |row| ==> row[c] <= 0.0
  }

  function StepOf(model: Model, h: Hypo): (int, seq<real>) {
    model.step(h.state, if h.path == [] then -1 else h.path[|h.path| - 1])
  }

  // ---- Flat indices: hypothesis k / nClass, class k % nClass

  function Class(model: Model, k: int): int
    requires model.nClass > 0
  {
    k % model.nClass
  }

  function Parent(model: Model, k: int): int
    requires model.nClass > 0
  {
    k / model.nClass
  }

  ghost predicate IsIndex(model: Model, beam: seq<Hypo>, k: int)
    requires model.nClass > 0
  {
    0 <= k && Parent(model, k) < |beam|
  }

  function Scored(model: Model, h: Hypo, c: int): real {
    var row := StepOf(model, h).1;
    h.score + if 0 <= c < |row| then row[c] else 0.0
  }

  function Extended(model: Model, h: Hypo, c: int): Hypo {
    Hypo(Scored(model, h, c), if c == model.eos then h.path else h.path + [c], StepOf(model, h).0)
  }

  function Entry(model: Model, beam: seq<Hypo>, k: int): Hypo
    requires model.nClass > 0
  {
    if 0 <= Parent(model, k) < |beam| then Extended(model, beam[Parent(model, k)], Class(model, k))
      else Hypo(0.0, [], 0)
  }

  function Entries(model: Model, beam: seq<Hypo>, ks: seq<int>): (r: seq<Hypo>)
    requires model.nClass > 0
    ensures |r| == |ks| && forall i :: 0 <= i < |ks| ==> r[i] == Entry(model, beam, ks[i])
  {
    seq(|ks|, i requires 0 <= i < |ks| => Entry(model, beam, ks[i]))
  }

  /** The indices of eos entries (or of the others), in order. */
  function Pick(model: Model, order: seq<int>, ended: bool): seq<int>
    requires model.nClass > 0
  {
    if order == [] then []
    else
      var n := |order| - 1;
      if (Class(model, order[n]) == model.eos) == ended then Pick(model, order[..n], ended) + [order[n]]
      else Pick(model, order[..n], ended)
  }

  lemma PickSnoc(model: Model, order: seq<int>, j: int, ended: bool)
    requires model.nClass > 0 && 0 <= j < |order|
    ensures Pick(model, order[..j + 1], ended)
      == if (Class(model, order[j]) == model.eos) == ended then Pick(model, order[..j], ended) + [order[j]]
         else Pick(model, order[..j], ended)
  {
    assert order[..j + 1][..j] == order[..j];
  }

  lemma {:induction false} PickSizes(model: Model, order: seq<int>)
    requires model.nClass > 0
    ensures |Pick(model, order, true)| + |Pick(model, order, false)| == |order|
  {
    if order != [] { PickSizes(model, order[..|order| - 1]); }
  }

  lemma {:induction false} PickMember(model: Model, order: seq<int>, ended: bool, k: int)
    requires model.nClass > 0
    ensures k in Pick(model, order, ended) <==> k in order && (Class(model, k) == model.eos) == ended
  {
    if order != [] {
      var n := |order| - 1;
      PickMember(model, order[..n], ended, k);
      assert order == order[..n] + [order[n]];
    }
  }

  predicate Distinct(s: seq<int>) {
    forall i, j :: 0 <= i < j < |s| ==> s[i] != s[j]
  }

  // ---- What sorting guarantees

  /** A permutation of the indices whose first P are sorted by score and not below the rest. */
  ghost predicate IsOrder(model: Model, beam: seq<Hypo>, P: nat, order: seq<int>)
    requires model.nClass > 0
  {
    && P <= |order| == |beam| * model.nClass && Distinct(order)
    && (forall k :: k in order <==> IsIndex(model, beam, k))
    && (forall i, j :: 0 <= i < P && i < j < |order| ==>
         Entry(model, beam, order[i]).score >= Entry(model, beam, order[j]).score)
  }

  function Min(a: int, b: int): int {
    if a < b then a else b
  }

  /** The scan of the order stops after m entries: K of them are no eos, or the order ends. */
  ghost predicate Stops(model: Model, order: seq<int>, K: nat, m: nat)
    requires model.nClass > 0
  {
    && m <= |order|
    && (forall j :: 0 <= j < m ==> |Pick(model, order[..j], false)| < K)
    && (m < |order| ==> |Pick(model, order[..m], false)| >= K)
  }

  lemma {:induction false} DistinctBelow(s: seq<int>, n: nat)
    requires Distinct(s) && forall i :: 0 <= i < |s| ==> 0 <= s[i] < n
    ensures |s| <= n
  {
    if s != [] {
      assert 0 <= s[0] < n;
      if n - 1 in s {
        var i :| 0 <= i < |s| && s[i] == n - 1;
        var rest := s[..i] + s[i + 1..];
        forall j | 0 <= j < |rest| ensures 0 <= rest[j] < n - 1 {
          assert rest[j] == if j < i then s[j] else s[j + 1];
        }
        DistinctBelow(rest, n - 1);
      } else {
        DistinctBelow(s, n - 1);
      }
    }
  }

  lemma {:induction false} PickDistinct(model: Model, order: seq<int>, ended: bool)
    requires model.nClass > 0 && Distinct(order)
    ensures Distinct(Pick(model, order, ended))
  {
    if order != [] {
      var n := |order| - 1;
      PickDistinct(model, order[..n], ended);
      PickMember(model, order[..n], ended, order[n]);
    }
  }

  lemma SameClass(model: Model, k: int, l: int)
    requires model.nClass > 0 && Class(model, k) == Class(model, l) && Parent(model, k) == Parent(model, l)
    ensures k == l
  {
  }

  /** Each hypothesis ends at most once per step. */
  lemma FewEnd(model: Model, beam: seq<Hypo>, order: seq<int>, j: nat)
    requires model.nClass > 0 && Distinct(order) && (forall k :: k in order ==> IsIndex(model, beam, k)) && j <= |order|
    ensures |Pick(model, order[..j], true)| <= |beam|
  {
    hide Pick, Class, Parent;
    var ended := Pick(model, order[..j], true);
    PickDistinct(model, order[..j], true);
    var parents := seq(|ended|, i requires 0 <= i < |ended| => Parent(model, ended[i]));
    forall i | 0 <= i < |ended| ensures 0 <= parents[i] < |beam| && Class(model, ended[i]) == model.eos {
      PickMember(model, order[..j], true, ended[i]);
      IndexParent(model, beam, ended[i]);
    }
    forall a, b | 0 <= a < b < |ended| ensures parents[a] != parents[b] {
      if parents[a] == parents[b] { SameClass(model, ended[a], ended[b]); }
    }
    DistinctBelow(parents, |beam|);
  }

  lemma IndexParent(model: Model, beam: seq<Hypo>, k: int)
    requires model.nClass > 0 && IsIndex(model, beam, k)
    ensures 0 <= Parent(model, k) < |beam|
  {
  }

  /** The scan never looks past the sorted part. */
  lemma NeverPastSorted(model: Model, beam: seq<Hypo>, K: nat, order: seq<int>, m: nat)
    requires model.nClass > 0 && |beam| <= K
    requires IsOrder(model, beam, Min(2 * K, |order|), order) && Stops(model, order, K, m)
    ensures m <= Min(2 * K, |order|)
  {
    hide Pick, IsIndex, Distinct;
    if m > 2 * K {
      var j := 2 * K;
      assert |Pick(model, order[..j], false)| < K;
      PickSizes(model, order[..j]);
      FewEnd(model, beam, order, j);
    }
  }

  // ---- One step keeps the best extensions

  ghost predicate Desc(model: Model, beam: seq<Hypo>, ks: seq<int>)
    requires model.nClass > 0
  {
    forall i, j :: 0 <= i < j < |ks| ==> Entry(model, beam, ks[i]).score >= Entry(model, beam, ks[j]).score
  }

  lemma {:induction false} PickDesc(model: Model, beam: seq<Hypo>, order: seq<int>, ended: bool)
    requires model.nClass > 0 && Desc(model, beam, order)
    ensures Desc(model, beam, Pick(model, order, ended))
  {
    hide Entry;
    if order != [] {
      var n := |order| - 1;
      PickDesc(model, beam, order[..n], ended);
      var before := Pick(model, order[..n], ended);
      forall i | 0 <= i < |before| ensures Entry(model, beam, before[i]).score >= Entry(model, beam, order[n]).score {
        PickMember(model, order[..n], ended, before[i]);
        var j :| 0 <= j < n && order[..n][j] == before[i];
        assert order[j] == before[i];
      }
    }
  }

  /** The indices kept for the next beam: the best K that are no eos, best first. */
  ghost predicate BestOthers(model: Model, beam: seq<Hypo>, K: nat, kept: seq<int>)
    requires model.nClass > 0
  {
    && |kept| <= K && Desc(model, beam, kept)
    && (forall k :: k in kept ==> IsIndex(model, beam, k) && Class(model, k) != model.eos)
    && (forall k :: IsIndex(model, beam, k) && Class(model, k) != model.eos && k !in kept ==>
        Beaten(model, beam, K, kept, k))
  }

  ghost predicate Beaten(model: Model, beam: seq<Hypo>, K: nat, kept: seq<int>, k: int)
    requires model.nClass > 0
  {
    |kept| == K && forall i :: 0 <= i < K ==> Entry(model, beam, kept[i]).score >= Entry(model, beam, k).score
  }

  lemma ScanSize(model: Model, order: seq<int>, K: nat, m: nat)
    requires model.nClass > 0 && K >= 1 && Stops(model, order, K, m)
    ensures |Pick(model, order[..m], false)| <= K && (m < |order| ==> |Pick(model, order[..m], false)| == K)
  {
    if m > 0 {
      PickSnoc(model, order, m - 1, false);
      assert |Pick(model, order[..m - 1], false)| < K;
    }
  }

  lemma ScanKeepsBest(model: Model, beam: seq<Hypo>, K: nat, order: seq<int>, m: nat)
    requires model.nClass > 0 && |beam| <= K && K >= 1
    requires IsOrder(model, beam, Min(2 * K, |order|), order) && Stops(model, order, K, m)
    ensures BestOthers(model, beam, K, Pick(model, order[..m], false))
  {
    hide Pick, Stops, Entry, IsIndex, Class;
    NeverPastSorted(model, beam, K, order, m);
    ScanSize(model, order, K, m);
    StopsWithin(model, order, K, m);
    var kept := Pick(model, order[..m], false);
    PickDesc(model, beam, order[..m], false);
    forall k ensures k in kept <==> k in order[..m] && Class(model, k) != model.eos {
      PickMember(model, order[..m], false, k);
    }
    forall k | IsIndex(model, beam, k) && Class(model, k) != model.eos && k !in kept
      ensures Beaten(model, beam, K, kept, k) {
      assert order == order[..m] + order[m..];
      var p' :| 0 <= p' < |order| - m && order[m..][p'] == k;
      var p := m + p';
      assert order[p] == k;
      forall i | 0 <= i < K ensures Entry(model, beam, kept[i]).score >= Entry(model, beam, k).score {
        assert kept[i] in kept;
        var q :| 0 <= q < m && order[..m][q] == kept[i];
        assert order[q] == kept[i];
      }
    }
  }

  lemma StopsWithin(model: Model, order: seq<int>, K: nat, m: nat)
    requires model.nClass > 0 && Stops(model, order, K, m)
    ensures m <= |order|
  {
  }

  /** The beam never dies out. */
  lemma SomeKept(model: Model, beam: seq<Hypo>, K: nat, kept: seq<int>)
    requires IsModel(model) && beam != [] && K >= 1 && BestOthers(model, beam, K, kept)
    ensures kept != []
  {
    var c := if model.eos == 0 then 1 else 0;
    assert Parent(model, c) == 0 && Class(model, c) == c;
    assert IsIndex(model, beam, c);
    assert c in kept || Beaten(model, beam, K, kept, c);
  }
}
