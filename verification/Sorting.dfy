/** Sorting by a real key, best first. Callers use the contract alone, which
    `std::sort`, `std::partial_sort` and `std::nth_element` meet where they are used. */
module Sorting {

  ghost predicate Falls<T>(s: seq<T>, key: T -> real) {
    forall i, j :: 0 <= i < j < |s| ==> key(s[i]) >= key(s[j])
  }

  lemma InsertFalls<T>(r: seq<T>, key: T -> real, k: int, x: T)
    requires Falls(r, key) && 0 <= k <= |r| && (k > 0 ==> key(x) <= key(r[k - 1]))
    requires forall j :: k <= j < |r| ==> key(x) > key(r[j])
    ensures Falls(r[..k] + [x] + r[k..], key)
  {
    var s := r[..k] + [x] + r[k..];
    forall i, j | 0 <= i < j < |s| ensures key(s[i]) >= key(s[j]) {
      if j != k && i != k { assert s[j] == r[if j < k then j else j - 1] && s[i] == r[if i < k then i else i - 1]; }
    }
  }

  lemma InsertMultiset<T>(r: seq<T>, k: int, x: T)
    requires 0 <= k <= |r|
    ensures multiset(r[..k] + [x] + r[k..]) == multiset(r) + multiset{x}
  {
    assert r == r[..k] + r[k..];
  }

  /** Where x belongs: after everything that is not below it. */
  method FindPlace<T>(r: seq<T>, key: T -> real, x: T) returns (k: int)
    ensures 0 <= k <= |r| && (k > 0 ==> key(x) <= key(r[k - 1]))
    ensures forall j :: k <= j < |r| ==> key(x) > key(r[j])
  {
    k := |r|;
    while k > 0 && key(x) > key(r[k - 1])
      invariant 0 <= k <= |r| && forall j :: k <= j < |r| ==> key(x) > key(r[j])
    {
      k := k - 1;
    }
  }

  method SortByKey<T>(s: seq<T>, key: T -> real) returns (r: seq<T>)
    ensures multiset(r) == multiset(s) && |r| == |s| && Falls(r, key)
  {
    hide Falls;
    r := [];
    assert Falls(r, key) by { NoneFalls(r, key); }
    for i := 0 to |s|
      invariant multiset(r) == multiset(s[..i]) && |r| == i && Falls(r, key)
    {
      var k := FindPlace(r, key, s[i]);
      InsertFalls(r, key, k, s[i]);
      InsertMultiset(r, k, s[i]);
      assert s[..i + 1] == s[..i] + [s[i]];
      r := r[..k] + [s[i]] + r[k..];
    }
    assert s[..|s|] == s;
  }

  lemma NoneFalls<T>(s: seq<T>, key: T -> real)
    requires s == []
    ensures Falls(s, key)
  {
  }
}
