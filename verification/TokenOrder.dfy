/** The tokens one frame considers: the best beamSizeToken of them. */
module TokenOrder {
  import opened Decoder

  predicate RowFalls(row: seq<real>, idx: seq<int>) {
    && (forall i :: 0 <= i < |idx| ==> 0 <= idx[i] < |row|)
    && (forall i, j :: 0 <= i < j < |idx| ==> idx[i] != idx[j] && row[idx[i]] >= row[idx[j]])
  }

  lemma InsertFalls(row: seq<real>, idx: seq<int>, k: int, n: int)
    requires RowFalls(row, idx) && 0 <= k <= |idx| && 0 <= n < |row| && n !in idx
    requires (k > 0 ==> row[n] <= row[idx[k - 1]]) && forall j :: k <= j < |idx| ==> row[n] > row[idx[j]]
    ensures RowFalls(row, idx[..k] + [n] + idx[k..])
  {
    var s := idx[..k] + [n] + idx[k..];
    forall i | 0 <= i < |s| ensures 0 <= s[i] < |row| {
      assert s[i] == if i < k then idx[i] else if i == k then n else idx[i - 1];
    }
    forall i, j | 0 <= i < j < |s| ensures s[i] != s[j] && row[s[i]] >= row[s[j]] {
      if j == k {
        assert i < k - 1 ==> row[idx[i]] >= row[idx[k - 1]];
      } else if i == k {
        assert s[j] == idx[j - 1];
      } else {
        assert s[i] == idx[if i < k then i else i - 1] && s[j] == idx[if j < k then j else j - 1];
      }
    }
  }

  ghost predicate Holds(idx: seq<int>, n: int) {
    forall m :: m in idx <==> 0 <= m < n
  }

  lemma InsertHolds(idx: seq<int>, k: int, n: nat)
    requires 0 <= k <= |idx| && Holds(idx, n)
    ensures Holds(idx[..k] + [n] + idx[k..], n + 1)
  {
    forall m ensures m in idx[..k] + [n] + idx[k..] <==> m == n || m in idx {
      assert idx == idx[..k] + idx[k..];
    }
  }

  /** All indices, best first: the contract `std::partial_sort` meets on its front. */
  method SortedTokens(row: seq<real>) returns (idx: seq<int>)
    ensures RowFalls(row, idx) && |idx| == |row| && Holds(idx, |row|)
  {
    idx := [];
    for n := 0 to |row|
      invariant RowFalls(row, idx) && |idx| == n && Holds(idx, n)
    {
      var k := FindPlace(row, idx, n);
      assert n !in idx;
      InsertFalls(row, idx, k, n);
      InsertHolds(idx, k, n);
      hide RowFalls, Holds;
      idx := idx[..k] + [n] + idx[k..];
    }
  }

  method FindPlace(row: seq<real>, idx: seq<int>, n: int) returns (k: int)
    requires RowFalls(row, idx) && 0 <= n < |row|
    ensures 0 <= k <= |idx| && (k > 0 ==> row[n] <= row[idx[k - 1]])
    ensures forall j :: k <= j < |idx| ==> row[n] > row[idx[j]]
  {
    k := |idx|;
    while k > 0 && row[n] > row[idx[k - 1]]
      invariant 0 <= k <= |idx| && forall j :: k <= j < |idx| ==> row[n] > row[idx[j]]
    {
      k := k - 1;
    }
  }

  method ChooseTokens(row: seq<real>, K: nat) returns (tokens: seq<int>)
    ensures TokenChoice(row, K, tokens)
  {
    if |row| <= K {
      tokens := seq(|row|, i => i);
    } else {
      var idx := SortedTokens(row);
      tokens := idx[..K];
      forall i, n | 0 <= i < K && 0 <= n < |row| && n !in tokens ensures row[tokens[i]] >= row[n] {
        assert n in idx;
        var j :| 0 <= j < |idx| && idx[j] == n;
        assert j >= K;
      }
    }
  }
}
