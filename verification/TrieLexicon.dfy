/** The trie that was built, as the lexicon the decoders use. */
module TrieLexicon {
  import T = Tries
  import C = TrieClass
  import opened Decoder
  import opened DecoderScore
  import opened LexiconSpelling
  import opened LexiconDoubles

  /** The nodes, with smeared scores back in the log domain. */
  function Exported(nodes: seq<T.Node>, log: real -> real): (lexicon: seq<TrieNode>)
    ensures |lexicon| == |nodes|
    ensures forall i :: 0 <= i < |nodes| ==>
      lexicon[i] == TrieNode(nodes[i].children, nodes[i].labels, log(nodes[i].maxScore))
  {
    seq(|nodes|, i requires 0 <= i < |nodes| => TrieNode(nodes[i].children, nodes[i].labels, log(nodes[i].maxScore)))
  }

  /** A trie in a state its operations keep. */
  ghost predicate IsTrie(nodes: seq<T.Node>, paths: seq<seq<int>>, words: seq<T.Word>) {
    C.Shaped(nodes, paths) && C.Holding(nodes, paths, words)
  }

  lemma {:induction false} SpelledIsWord(words: seq<T.Word>, path: seq<int>, j: int)
    requires 0 <= j < |T.Spelled(words, path)|
    ensures T.Spelled(words, path)[j] in words && T.Spelled(words, path)[j].path == path
  {
    var n := |words| - 1;
    if j < |T.Spelled(words[..n], path)| { SpelledIsWord(words[..n], path, j); }
  }

  lemma {:induction false} WordIsSpelled(words: seq<T.Word>, k: int)
    requires 0 <= k < |words|
    ensures words[k] in T.Spelled(words, words[k].path)
  {
    var n := |words| - 1;
    if k < n { WordIsSpelled(words[..n], k); }
  }

  /** A node has exactly the words its path spells. */
  lemma NodeWords(nodes: seq<T.Node>, paths: seq<seq<int>>, words: seq<T.Word>, i: int, w: int)
    requires IsTrie(nodes, paths, words) && 0 <= i < |nodes|
    ensures w in nodes[i].labels <==> exists k :: 0 <= k < |words| && words[k].path == paths[i] && words[k].name == w
  {
    hide C.Shaped, T.Spelled;
    assert C.HoldsAt(nodes[i], paths[i], words);
    var spelled := T.Spelled(words, paths[i]);
    if w in nodes[i].labels {
      var j :| 0 <= j < |spelled| && T.Labels(spelled)[j] == w;
      SpelledIsWord(words, paths[i], j);
    }
    if k :| 0 <= k < |words| && words[k].path == paths[i] && words[k].name == w {
      WordIsSpelled(words, k);
      var j :| 0 <= j < |spelled| && spelled[j] == words[k];
      assert T.Labels(spelled)[j] == w;
    }
  }

  /** It is a lexicon the decoder theorems apply to. */
  lemma ExportedIsLexicon(nodes: seq<T.Node>, paths: seq<seq<int>>, words: seq<T.Word>, unk: int, log: real -> real)
    requires IsTrie(nodes, paths, words) && unk != -1
    requires forall k :: 0 <= k < |words| ==> words[k].name != -1 && words[k].name != unk
    ensures NoLoops(Exported(nodes, log)) && IsLexicon(unk, Exported(nodes, log))
  {
    hide C.Holding;
    var lexicon := Exported(nodes, log);
    forall i, w | 0 <= i < |lexicon| && w in lexicon[i].labels ensures w != -1 && w != unk {
      NodeWords(nodes, paths, words, i, w);
    }
    forall i, n | 0 <= i < |lexicon| && n in lexicon[i].children
      ensures lexicon[i].children[n] != 0 && lexicon[i].children[n] != i
    {
      assert C.EdgesAt(nodes, paths, i);
    }
  }

  /** Its paths are those of the trie. */
  lemma {:induction false} ExportedWalk(nodes: seq<T.Node>, paths: seq<seq<int>>, log: real -> real, s: seq<int>)
    requires C.Shaped(nodes, paths)
    ensures HasPath(Exported(nodes, log), s) <==> s in paths
    ensures s in paths ==> var i := Walk(Exported(nodes, log), s); 0 <= i < |nodes| && paths[i] == s
  {
    hide C.Shaped;
    C.RootPath(nodes, paths);
    if s != [] {
      var n, lexicon := |s| - 1, Exported(nodes, log);
      ExportedWalk(nodes, paths, log, s[..n]);
      assert s == s[..n] + [s[n]];
      if s in paths {
        var j :| 0 <= j < |paths| && paths[j] == s;
        var i := C.PrefixReached(nodes, paths, j, n);
        assert s[..n] in paths;
        C.ChildReached(nodes, paths, Walk(lexicon, s[..n]), j);
      }
      if s[..n] in paths {
        var i := Walk(lexicon, s[..n]);
        if s[n] in nodes[i].children { C.ChildPath(nodes, paths, i, s[n]); }
      }
    }
  }

  /** The lexicon spells exactly the words that were inserted. */
  lemma ExportedSpells(cfg: Config, nodes: seq<T.Node>, paths: seq<seq<int>>, words: seq<T.Word>, log: real -> real,
                       s: seq<int>, w: int)
    requires IsTrie(nodes, paths, words) && w != cfg.unk && s != []
    ensures Spells(cfg, Exported(nodes, log), s, w)
       <==> exists k :: 0 <= k < |words| && words[k].path == s && words[k].name == w
  {
    hide C.Shaped, HasPath, Walk;
    var lexicon := Exported(nodes, log);
    ExportedWalk(nodes, paths, log, s);
    if s in paths { NodeWords(nodes, paths, words, Walk(lexicon, s), w); }
  }

  ghost predicate Rising(log: real -> real) {
    forall x, y :: 0.0 < x <= y ==> log(x) <= log(y)
  }

  ghost predicate AllSmeared(mode: T.Mode, nodes: seq<T.Node>, paths: seq<seq<int>>, words: seq<T.Word>) {
    |nodes| == |paths| && forall k :: 0 <= k < |nodes| ==> T.IsSmeared(mode, words, paths[k], nodes[k].maxScore)
  }

  /** After smearing in either mode, a word that can still be spelled keeps the decoder on
      the path, and the look-ahead there is never below the word's own score; it is the log
      of what the mode promises. */
  lemma ExportedSmear(mode: T.Mode, nodes: seq<T.Node>, paths: seq<seq<int>>, words: seq<T.Word>, log: real -> real,
                      s: seq<int>, k: int)
    requires IsTrie(nodes, paths, words) && AllSmeared(mode, nodes, paths, words) && mode != T.None
    requires T.Nonneg(words) && Rising(log)
    requires s != [] && 0 <= k < |words| && s <= words[k].path && words[k].score > 0.0
    ensures var lexicon := Exported(nodes, log);
      HasPath(lexicon, s) && log(words[k].score) <= Smear(lexicon, Walk(lexicon, s))
    ensures mode == T.LogAdd ==>
      Smear(Exported(nodes, log), Walk(Exported(nodes, log), s)) == log(T.MassBelow(words, s))
    ensures mode == T.Max ==>
      exists v :: T.IsTopBelow(words, s, v) && Smear(Exported(nodes, log), Walk(Exported(nodes, log), s)) == log(v)
  {
    hide C.Shaped, C.HoldsAt, HasPath, Walk, T.MassBelow, T.IsTopBelow;
    var j :| 0 <= j < |paths| && paths[j] == words[k].path;
    var i := C.PrefixReached(nodes, paths, j, |s|);
    assert paths[i] == s;
    ExportedWalk(nodes, paths, log, s);
    C.RootPath(nodes, paths);
    var n := Walk(Exported(nodes, log), s);
    assert T.IsSmeared(mode, words, paths[n], nodes[n].maxScore);
    if mode == T.LogAdd {
      T.WordWithin(words, s, k);
    } else {
      T.MaxIsAdmissible(words, s, nodes[n].maxScore, k);
    }
  }

  /** For a trie, the condition on the lexicon is one on the words inserted. */
  lemma RepeatedEndOfWords(nodes: seq<T.Node>, paths: seq<seq<int>>, words: seq<T.Word>, log: real -> real)
    requires IsTrie(nodes, paths, words)
    ensures NoRepeatedEnd(Exported(nodes, log), false) <==> forall k :: 0 <= k < |words| ==> !RepeatsEnd(words[k].path)
  {
    hide C.Shaped, HasPath, Walk, C.HoldsAt, RepeatsEnd;
    var lexicon := Exported(nodes, log);
    if NoRepeatedEnd(lexicon, false) {
      forall k | 0 <= k < |words| ensures !RepeatsEnd(words[k].path) {
        var s := words[k].path;
        assert s in paths;
        ExportedWalk(nodes, paths, log, s);
        NodeWords(nodes, paths, words, Walk(lexicon, s), words[k].name);
        EmptyEnd();
        if s != [] { assert EndsWord(lexicon, false, s); }
      }
    } else {
      var s :| EndsWord(lexicon, false, s) && RepeatsEnd(s);
      ExportedWalk(nodes, paths, log, s);
      var i := Walk(lexicon, s);
      NodeWords(nodes, paths, words, i, nodes[i].labels[0]);
    }
  }

  lemma EmptyEnd()
    ensures !RepeatsEnd([])
  {
  }
}
