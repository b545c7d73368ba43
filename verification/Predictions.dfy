/** Turning a frame-level prediction into what it says: `uniq`, and the removal of
    blanks for CTC, both in place. */
module Predictions {
  import opened Transforms

  lemma UniqTake(s: seq<int>, i: int)
    requires 0 < i < |s|
    ensures Uniq(s[..i + 1]) == if s[i] == s[i - 1] then Uniq(s[..i]) else Uniq(s[..i]) + [s[i]]
  {
    assert s[..i + 1] == s[..i] + [s[i]];
    UniqSnoc(s[..i], s[i]);
  }

  /** The last label is always kept. */
  lemma {:induction false} UniqLast(s: seq<int>)
    requires s != []
    ensures Uniq(s) != [] && Uniq(s)[|Uniq(s)| - 1] == s[|s| - 1]
  {
    if |s| > 1 { UniqLast(s[..|s| - 1]); }
  }

  /** Compares with the last label kept, which need not be the one before in the array any more. */
  method UniqInPlace(a: array<int>) returns (n: nat)
    modifies a
    ensures n <= a.Length && a[..n] == Uniq(old(a[..]))
  {
    hide Uniq;
    ghost var s := a[..];
    n := 0;
    if a.Length == 0 {
      EmptyUniq(s);
      return;
    }
    n := 1;
    OneUniq(s);
    assert a[..1] == s[..1];
    for i := 1 to a.Length
      invariant 1 <= n <= i && a[..n] == Uniq(s[..i])
      invariant forall k :: i <= k < a.Length ==> a[k] == s[k]
    {
      UniqTake(s, i);
      UniqLast(s[..i]);
      ghost var kept := a[..n];
      assert kept[n - 1] == s[i - 1];
      if a[i] != a[n - 1] {
        a[n] := a[i];
        n := n + 1;
        assert a[..n] == kept + [s[i]];
      }
    }
    assert s[..a.Length] == s;
  }

  lemma EmptyUniq(s: seq<int>)
    requires s == []
    ensures Uniq(s) == []
  {
  }

  lemma OneUniq(s: seq<int>)
    requires s != []
    ensures Uniq(s[..1]) == s[..1]
  {
  }

  /** `std::remove` on the first n entries. */
  method EraseInPlace(a: array<int>, n: nat, x: int) returns (m: nat)
    requires n <= a.Length
    modifies a
    ensures m <= n && a[..m] == Erase(old(a[..n]), x)
  {
    hide Erase;
    ghost var s := a[..n];
    m := 0;
    EmptyErase(x);
    assert s[..0] == [];
    for i := 0 to n
      invariant m <= i && a[..m] == Erase(s[..i], x)
      invariant forall k :: i <= k < n ==> a[k] == s[k]
    {
      EraseSnoc(s[..i], s[i], x);
      assert s[..i + 1] == s[..i] + [s[i]];
      ghost var kept := a[..m];
      if a[i] != x {
        a[m] := a[i];
        m := m + 1;
        assert a[..m] == kept + [s[i]];
      }
    }
    assert s[..n] == s;
  }

  lemma EmptyErase(x: int)
    ensures Erase([], x) == []
  {
  }

  /** A CTC prediction is read as the label sequence it collapses to. */
  method CtcPrediction(a: array<int>, blank: int) returns (n: nat)
    modifies a
    ensures n <= a.Length && a[..n] == Collapse(old(a[..]), blank)
  {
    n := UniqInPlace(a);
    n := EraseInPlace(a, n, blank);
  }
}
