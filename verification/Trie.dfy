/** The lexicon trie: insertion, search and smearing. Scores are in the
    exponentiated domain (log-add is +, minus infinity is 0). Nodes live in a
    sequence and refer to each other by position; the root is node 0. */
module Tries {

  const MAX_LABELS := 6

  datatype Node = Node(children: map<int, int>, labels: seq<int>, scores: seq<real>, maxScore: real)

  datatype Word = Word(path: seq<int>, name: int, score: real)

  datatype Mode = None | Max | LogAdd

  datatype Outcome = Found(node: int) | Missing | InvalidIndex

  // ---- What a set of words says about a path

  /** The words spelled exactly by a path, in order of insertion. */
  function Spelled(words: seq<Word>, path: seq<int>): seq<Word> {
    if words == [] then []
    else
      var n := |words| - 1;
      if words[n].path == path then Spelled(words[..n], path) + [words[n]] else Spelled(words[..n], path)
  }

  function Labels(words: seq<Word>): (r: seq<int>)
    ensures |r| == |words|
  {
    seq(|words|, i requires 0 <= i < |words| => words[i].name)
  }

  function Scores(words: seq<Word>): (r: seq<real>)
    ensures |r| == |words|
  {
    seq(|words|, i requires 0 <= i < |words| => words[i].score)
  }

  function Total(scores: seq<real>): real {
    if scores == [] then 0.0 else Total(scores[..|scores| - 1]) + scores[|scores| - 1]
  }

  /** The mass of the words spelled by a path. */
  function OwnMass(words: seq<Word>, path: seq<int>): real {
    Total(Scores(Spelled(words, path)))
  }

  /** w is spelled by the path or continues it by a token of S. */
  predicate Continues(w: Word, path: seq<int>, S: set<int>) {
    path <= w.path && (|w.path| == |path| || w.path[|path|] in S)
  }

  /** The mass of those words. */
  function MassIn(words: seq<Word>, path: seq<int>, S: set<int>): real {
    if words == [] then 0.0
    else
      var n := |words| - 1;
      MassIn(words[..n], path, S) + if Continues(words[n], path, S) then words[n].score else 0.0
  }

  /** The mass of all words that begin with a path. */
  function MassBelow(words: seq<Word>, path: seq<int>): real {
    if words == [] then 0.0
    else
      var n := |words| - 1;
      MassBelow(words[..n], path) + if path <= words[n].path then words[n].score else 0.0
  }

  /** v is the largest mass of a spelling among the words that continue the path, 0 if none does. */
  ghost predicate IsTopIn(words: seq<Word>, path: seq<int>, S: set<int>, v: real) {
    && (forall i :: 0 <= i < |words| && Continues(words[i], path, S) ==> OwnMass(words, words[i].path) <= v)
    && (v == 0.0 || exists i :: 0 <= i < |words| && Continues(words[i], path, S) && OwnMass(words, words[i].path) == v)
    && v >= 0.0
  }

  ghost predicate IsTopBelow(words: seq<Word>, path: seq<int>, v: real) {
    && (forall i :: 0 <= i < |words| && path <= words[i].path ==> OwnMass(words, words[i].path) <= v)
    && (v == 0.0 || exists i :: 0 <= i < |words| && path <= words[i].path && OwnMass(words, words[i].path) == v)
    && v >= 0.0
  }

  /** What smearing promises of a node. */
  ghost predicate IsSmeared(mode: Mode, words: seq<Word>, path: seq<int>, v: real) {
    match mode
    case None => true
    case LogAdd => v == MassBelow(words, path)
    case Max => IsTopBelow(words, path, v)
  }

  // ---- One more child

  lemma PrefixNext(path: seq<int>, w: Word, k: int)
    ensures path + [k] <= w.path <==> path <= w.path && |w.path| > |path| && w.path[|path|] == k
  {
    if path <= w.path && |w.path| > |path| && w.path[|path|] == k {
      assert w.path[..|path| + 1] == path + [k];
    }
  }

  lemma {:induction false} MassChild(words: seq<Word>, path: seq<int>, S: set<int>, k: int)
    requires k !in S
    ensures MassIn(words, path, S + {k}) == MassIn(words, path, S) + MassBelow(words, path + [k])
  {
    if words != [] {
      var n := |words| - 1;
      MassChild(words[..n], path, S, k);
      PrefixNext(path, words[n], k);
    }
  }

  lemma TopChild(words: seq<Word>, path: seq<int>, S: set<int>, k: int, v: real, u: real)
    requires IsTopIn(words, path, S, v) && IsTopBelow(words, path + [k], u)
    ensures IsTopIn(words, path, S + {k}, if u > v then u else v)
  {
    hide OwnMass;
    forall i | 0 <= i < |words|
      ensures Continues(words[i], path, S + {k}) <==> Continues(words[i], path, S) || path + [k] <= words[i].path
    {
      PrefixNext(path, words[i], k);
    }
  }

  lemma TotalSnoc(s: seq<real>, x: real)
    ensures Total(s + [x]) == Total(s) + x
  {
    assert (s + [x])[..|s|] == s;
  }

  lemma {:induction false} MassOwn(words: seq<Word>, path: seq<int>)
    ensures MassIn(words, path, {}) == OwnMass(words, path)
  {
    if words != [] {
      var n := |words| - 1;
      MassOwn(words[..n], path);
      assert words[n].path == path <==> Continues(words[n], path, {});
      if words[n].path == path {
        var before := Spelled(words[..n], path);
        assert Scores(before + [words[n]]) == Scores(before) + [words[n].score];
        TotalSnoc(Scores(before), words[n].score);
      }
    }
  }

  /** Scores are probabilities: no mass is negative. */
  predicate Nonneg(words: seq<Word>) {
    forall i :: 0 <= i < |words| ==> words[i].score >= 0.0
  }

  lemma {:induction false} OwnNonneg(words: seq<Word>, path: seq<int>)
    requires Nonneg(words)
    ensures MassIn(words, path, {}) >= 0.0
    ensures OwnMass(words, path) >= 0.0
  {
    if words != [] { OwnNonneg(words[..|words| - 1], path); }
    MassOwn(words, path);
  }

  lemma {:induction false} OwnZero(words: seq<Word>, path: seq<int>)
    requires forall i :: 0 <= i < |words| ==> words[i].path != path
    ensures OwnMass(words, path) == 0.0
  {
    if words != [] { OwnZero(words[..|words| - 1], path); }
  }

  lemma TopOwn(words: seq<Word>, path: seq<int>)
    requires Nonneg(words)
    ensures IsTopIn(words, path, {}, OwnMass(words, path))
  {
    hide OwnMass;
    OwnNonneg(words, path);
    forall i | 0 <= i < |words| && Continues(words[i], path, {}) ensures words[i].path == path { }
    if forall i :: 0 <= i < |words| ==> words[i].path != path {
      OwnZero(words, path);
    } else {
      var i :| 0 <= i < |words| && words[i].path == path;
      assert Continues(words[i], path, {});
    }
  }

  /** When every continuation goes through S, S is everything. */
  lemma {:induction false} MassAll(words: seq<Word>, path: seq<int>, S: set<int>)
    requires forall i :: 0 <= i < |words| && path <= words[i].path ==> Continues(words[i], path, S)
    ensures MassIn(words, path, S) == MassBelow(words, path)
  {
    if words != [] { MassAll(words[..|words| - 1], path, S); }
  }

  lemma TopAll(words: seq<Word>, path: seq<int>, S: set<int>, v: real)
    requires IsTopIn(words, path, S, v)
    requires forall i :: 0 <= i < |words| && path <= words[i].path ==> Continues(words[i], path, S)
    ensures IsTopBelow(words, path, v)
  {
  }

  lemma {:induction false} TermWithin(words: seq<Word>, path: seq<int>, i: int)
    requires Nonneg(words) && 0 <= i < |words| && words[i].path == path
    ensures OwnMass(words, path) >= words[i].score
  {
    hide OwnMass;
    MassOwn(words, path);
    TermOfMass(words, path, i);
  }

  lemma {:induction false} TermOfMass(words: seq<Word>, path: seq<int>, i: int)
    requires Nonneg(words) && 0 <= i < |words| && words[i].path == path
    ensures MassIn(words, path, {}) >= words[i].score
  {
    var n := |words| - 1;
    if i < n { TermOfMass(words[..n], path, i); } else { OwnNonneg(words[..n], path); }
  }

  lemma {:induction false} BelowNonneg(words: seq<Word>, path: seq<int>)
    requires Nonneg(words)
    ensures MassBelow(words, path) >= 0.0
  {
    if words != [] { BelowNonneg(words[..|words| - 1], path); }
  }

  lemma {:induction false} WordWithin(words: seq<Word>, path: seq<int>, i: int)
    requires Nonneg(words) && 0 <= i < |words| && path <= words[i].path
    ensures words[i].score <= MassBelow(words, path)
  {
    var n := |words| - 1;
    if i < n { WordWithin(words[..n], path, i); } else { BelowNonneg(words[..n], path); }
  }

  /** A smeared score is never below the score of a word that can still be spelled. */
  lemma MaxIsAdmissible(words: seq<Word>, path: seq<int>, v: real, i: int)
    requires Nonneg(words) && IsTopBelow(words, path, v) && 0 <= i < |words| && path <= words[i].path
    ensures words[i].score <= v
  {
    hide OwnMass;
    TermWithin(words, words[i].path, i);
  }

  // ---- When Max smearing is the largest word

  /** v is the largest score of a single word that begins with the path, 0 if none does. */
  ghost predicate IsBestWord(words: seq<Word>, path: seq<int>, v: real) {
    && (forall i :: 0 <= i < |words| && path <= words[i].path ==> words[i].score <= v)
    && (v == 0.0 || exists i :: 0 <= i < |words| && path <= words[i].path && words[i].score == v)
    && v >= 0.0
  }

  /** Words with these spellings and positive scores. */
  predicate SpelledAs(words: seq<Word>, spellings: seq<seq<int>>) {
    |words| == |spellings| && forall i :: 0 <= i < |words| ==> words[i].path == spellings[i] && words[i].score > 0.0
  }

  /** No two of the spellings that begin with the path are the same. */
  predicate ApartBelow(spellings: seq<seq<int>>, path: seq<int>) {
    forall i, j :: 0 <= i < j < |spellings| && path <= spellings[i] ==> spellings[i] != spellings[j]
  }

  lemma {:induction false} OnlyWord(words: seq<Word>, path: seq<int>, i: int)
    requires 0 <= i < |words| && words[i].path == path
    requires forall j :: 0 <= j < |words| && j != i ==> words[j].path != path
    ensures MassIn(words, path, {}) == words[i].score
  {
    var n := |words| - 1;
    if i < n { OnlyWord(words[..n], path, i); } else { NoWord(words[..n], path); }
  }

  lemma {:induction false} NoWord(words: seq<Word>, path: seq<int>)
    requires forall j :: 0 <= j < |words| ==> words[j].path != path
    ensures MassIn(words, path, {}) == 0.0
  {
    if words != [] { NoWord(words[..|words| - 1], path); }
  }

  lemma {:induction false} TwoWords(words: seq<Word>, path: seq<int>, i: int, j: int)
    requires Nonneg(words) && 0 <= i < j < |words| && words[i].path == words[j].path == path
    ensures MassIn(words, path, {}) >= words[i].score + words[j].score
  {
    var n := |words| - 1;
    if j < n { TwoWords(words[..n], path, i, j); } else { TermOfMass(words[..n], path, i); }
  }

  lemma TopIsBestWord(words: seq<Word>, spellings: seq<seq<int>>, path: seq<int>, v: real)
    requires SpelledAs(words, spellings) && ApartBelow(spellings, path) && IsTopBelow(words, path, v)
    ensures IsBestWord(words, path, v)
  {
    hide OwnMass, MassIn;
    forall i | 0 <= i < |words| && path <= words[i].path ensures OwnMass(words, words[i].path) == words[i].score {
      MassOwn(words, words[i].path);
      OnlyWord(words, words[i].path, i);
    }
  }

  /** There is always a largest spelling. */
  lemma {:induction false} TopExists(words: seq<Word>, path: seq<int>, n: nat) returns (v: real)
    requires Nonneg(words) && n <= |words|
    ensures forall i :: 0 <= i < n && path <= words[i].path ==> OwnMass(words, words[i].path) <= v
    ensures v == 0.0 || exists i :: 0 <= i < n && path <= words[i].path && OwnMass(words, words[i].path) == v
    ensures v >= 0.0
    decreases n
  {
    hide OwnMass;
    v := 0.0;
    if n > 0 {
      v := TopExists(words, path, n - 1);
      var w := words[n - 1].path;
      if path <= w && OwnMass(words, w) > v { v := OwnMass(words, w); }
    }
  }

  function Ones(spellings: seq<seq<int>>): (words: seq<Word>)
    ensures SpelledAs(words, spellings) && Nonneg(words) && forall i :: 0 <= i < |words| ==> words[i].score == 1.0
  {
    seq(|spellings|, i requires 0 <= i < |spellings| => Word(spellings[i], i, 1.0))
  }

  /** Two words of one spelling: smeared to their sum at least, so to no single word. */
  lemma HomophonesAddUp(spellings: seq<seq<int>>, path: seq<int>, i: int, j: int) returns (words: seq<Word>, v: real)
    requires 0 <= i < j < |spellings| && path <= spellings[i] && spellings[i] == spellings[j]
    ensures SpelledAs(words, spellings) && IsTopBelow(words, path, v) && !IsBestWord(words, path, v)
  {
    hide OwnMass, MassIn;
    words := Ones(spellings);
    v := TopExists(words, path, |words|);
    MassOwn(words, spellings[i]);
    TwoWords(words, spellings[i], i, j);
    assert words[i].path == spellings[i] && OwnMass(words, words[i].path) >= 2.0;
  }

  /** For given spellings, Max smearing yields the largest single word whatever the scores
      if and only if no two words below the node share a spelling. */
  lemma MaxIsBestWord(spellings: seq<seq<int>>, path: seq<int>)
    ensures (forall words, v :: SpelledAs(words, spellings) && IsTopBelow(words, path, v) ==>
             IsBestWord(words, path, v))
       <==> ApartBelow(spellings, path)
  {
    hide IsTopBelow, IsBestWord, SpelledAs;
    if ApartBelow(spellings, path) {
      forall words, v | SpelledAs(words, spellings) && IsTopBelow(words, path, v) ensures IsBestWord(words, path, v) {
        TopIsBestWord(words, spellings, path, v);
      }
    } else {
      var i, j :| 0 <= i < j < |spellings| && path <= spellings[i] && spellings[i] == spellings[j];
      var words, v := HomophonesAddUp(spellings, path, i, j);
    }
  }
}
