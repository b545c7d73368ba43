/** Label-sequence transforms: `uniq`, and the CTC collapse built from it. */
module Transforms {

  /** Runs of equal labels reduced to one label. */
  function Uniq(s: seq<int>): seq<int> {
    if |s| <= 1 then s
    else
      var n := |s| - 1;
      if s[n] == s[n - 1] then Uniq(s[..n]) else Uniq(s[..n]) + [s[n]]
  }

  /** All occurrences of x erased. */
  function Erase(s: seq<int>, x: int): seq<int> {
    if s == [] then []
    else
      var n := |s| - 1;
      if s[n] == x then Erase(s[..n], x) else Erase(s[..n], x) + [s[n]]
  }

  /** What a CTC frame labeling spells: runs merged, then blanks erased. */
  function Collapse(s: seq<int>, blank: int): seq<int> {
    Erase(Uniq(s), blank)
  }

  predicate NoAdjacentEqual(s: seq<int>) {
    forall i :: 0 < i < |s| ==> s[i - 1] != s[i]
  }

  lemma UniqSnoc(s: seq<int>, c: int)
    ensures Uniq(s + [c]) == if s != [] && s[|s| - 1] == c then Uniq(s) else Uniq(s) + [c]
  {
    assert (s + [c])[..|s|] == s;
  }

  lemma EraseSnoc(s: seq<int>, c: int, x: int)
    ensures Erase(s + [c], x) == if c == x then Erase(s, x) else Erase(s, x) + [c]
  {
    assert (s + [c])[..|s|] == s;
  }

  lemma CollapseNil(blank: int)
    ensures Collapse([], blank) == []
  {
  }

  lemma CollapseSnoc(s: seq<int>, c: int, blank: int)
    ensures Collapse(s + [c], blank)
         == if c == blank || (s != [] && s[|s| - 1] == c) then Collapse(s, blank) else Collapse(s, blank) + [c]
  {
    UniqSnoc(s, c);
    EraseSnoc(Uniq(s), c, blank);
  }
}
