/** The trie as an object. */
module TrieClass {
  import opened Tries

  // ---- The shape of a trie

  /** Node j hangs below node i by the last token of its path. */
  predicate HangsBelow(nodes: seq<Node>, paths: seq<seq<int>>, i: int, j: int)
    requires |nodes| == |paths| && 0 <= i < |nodes| && 0 <= j < |nodes| && paths[j] != []
  {
    var n := |paths[j]| - 1;
    paths[i] == paths[j][..n] && paths[j][n] in nodes[i].children && nodes[i].children[paths[j][n]] == j
  }

  ghost predicate HasParent(nodes: seq<Node>, paths: seq<seq<int>>, j: int)
    requires |nodes| == |paths| && 0 <= j < |nodes| && paths[j] != []
  {
    exists i :: 0 <= i < j && HangsBelow(nodes, paths, i, j)
  }

  predicate EdgesAt(nodes: seq<Node>, paths: seq<seq<int>>, i: int)
    requires |nodes| == |paths| && 0 <= i < |nodes|
  {
    forall c :: c in nodes[i].children ==>
      i < nodes[i].children[c] < |nodes| && paths[nodes[i].children[c]] == paths[i] + [c]
  }

  /** Node i is reached by paths[i], each path by one node. */
  ghost predicate Shaped(nodes: seq<Node>, paths: seq<seq<int>>) {
    && |nodes| == |paths| >= 1 && paths[0] == []
    && (forall i, j :: 0 <= i < j < |paths| ==> paths[i] != paths[j])
    && (forall i :: 0 <= i < |nodes| ==> EdgesAt(nodes, paths, i))
    && (forall j :: 0 < j < |nodes| ==> paths[j] != [] && HasParent(nodes, paths, j))
  }

  predicate HoldsAt(node: Node, path: seq<int>, words: seq<Word>) {
    node.labels == Labels(Spelled(words, path)) && node.scores == Scores(Spelled(words, path))
  }

  /** Each node holds the words its path spells. */
  ghost predicate Holding(nodes: seq<Node>, paths: seq<seq<int>>, words: seq<Word>) {
    && |nodes| == |paths|
    && (forall i :: 0 <= i < |nodes| ==> HoldsAt(nodes[i], paths[i], words))
    && (forall i :: 0 <= i < |words| ==> words[i].path in paths)
  }

  predicate Tokens(path: seq<int>, max: int) {
    forall i :: 0 <= i < |path| ==> 0 <= path[i] < max
  }

  lemma {:induction false} PrefixReached(nodes: seq<Node>, paths: seq<seq<int>>, j: int, n: nat) returns (i: int)
    requires Shaped(nodes, paths) && 0 <= j < |paths| && n <= |paths[j]|
    ensures 0 <= i < |paths| && paths[i] == paths[j][..n]
    decreases j
  {
    if n == |paths[j]| {
      i := j;
    } else {
      assert HasParent(nodes, paths, j);
      var p :| 0 <= p < j && HangsBelow(nodes, paths, p, j);
      i := PrefixReached(nodes, paths, p, n);
      assert paths[p][..n] == paths[j][..n];
    }
  }

  /** A path that goes on below node i goes through one of its children. */
  lemma ChildReached(nodes: seq<Node>, paths: seq<seq<int>>, i: int, j: int)
    requires Shaped(nodes, paths) && 0 <= i < |paths| && 0 <= j < |paths|
    requires paths[i] <= paths[j] && |paths[i]| < |paths[j]|
    ensures paths[j][|paths[i]|] in nodes[i].children
  {
    var n := |paths[i]|;
    var k := PrefixReached(nodes, paths, j, n + 1);
    assert paths[k] != [];
    assert HasParent(nodes, paths, k);
    var p :| 0 <= p < k && HangsBelow(nodes, paths, p, k);
    assert paths[p] == paths[i];
    assert p == i;
  }

  /** A new node below node i. */
  function WithChild(nodes: seq<Node>, i: int, c: int): seq<Node>
    requires 0 <= i < |nodes|
  {
    nodes[i := nodes[i].(children := nodes[i].children[c := |nodes|])] + [Node(map[], [], [], 0.0)]
  }

  lemma NewPath(nodes: seq<Node>, paths: seq<seq<int>>, i: int, c: int, j: int)
    requires Shaped(nodes, paths) && 0 <= i < |nodes| && c !in nodes[i].children && 0 <= j < |paths|
    ensures paths[j] != paths[i] + [c]
  {
    if paths[j] == paths[i] + [c] { ChildReached(nodes, paths, i, j); }
  }

  lemma NewEdges(nodes: seq<Node>, paths: seq<seq<int>>, i: int, c: int, j: int)
    requires Shaped(nodes, paths) && 0 <= i < |nodes| && c !in nodes[i].children && 0 <= j <= |nodes|
    ensures EdgesAt(WithChild(nodes, i, c), paths + [paths[i] + [c]], j)
  {
    hide HasParent;
    if j < |nodes| { assert EdgesAt(nodes, paths, j); }
  }

  lemma ParentKept(nodes: seq<Node>, paths: seq<seq<int>>, i: int, c: int, p: int, j: int)
    requires |nodes| == |paths| && 0 <= i < |nodes| && c !in nodes[i].children && 0 <= p < |nodes| && 0 <= j < |nodes|
    requires paths[j] != [] && HangsBelow(nodes, paths, p, j)
    ensures HangsBelow(WithChild(nodes, i, c), paths + [paths[i] + [c]], p, j)
  {
  }

  lemma ParentNew(nodes: seq<Node>, paths: seq<seq<int>>, i: int, c: int)
    requires |nodes| == |paths| && 0 <= i < |nodes|
    ensures HangsBelow(WithChild(nodes, i, c), paths + [paths[i] + [c]], i, |nodes|)
  {
    var path := paths[i] + [c];
    assert path[..|paths[i]|] == paths[i];
  }

  lemma NewParent(nodes: seq<Node>, paths: seq<seq<int>>, i: int, c: int, j: int)
    requires Shaped(nodes, paths) && 0 <= i < |nodes| && c !in nodes[i].children && 0 < j <= |nodes|
    ensures var paths' := paths + [paths[i] + [c]]; paths'[j] != [] && HasParent(WithChild(nodes, i, c), paths', j)
  {
    hide EdgesAt, HangsBelow;
    if j < |nodes| {
      assert HasParent(nodes, paths, j);
      var p :| 0 <= p < j && HangsBelow(nodes, paths, p, j);
      ParentKept(nodes, paths, i, c, p, j);
    } else {
      ParentNew(nodes, paths, i, c);
    }
  }

  lemma NewNode(nodes: seq<Node>, paths: seq<seq<int>>, i: int, c: int)
    requires Shaped(nodes, paths) && 0 <= i < |nodes| && c !in nodes[i].children
    ensures Shaped(WithChild(nodes, i, c), paths + [paths[i] + [c]])
  {
    hide EdgesAt, HasParent;
    var nodes', paths' := WithChild(nodes, i, c), paths + [paths[i] + [c]];
    forall j | 0 <= j < |nodes| ensures paths[j] != paths[i] + [c] { NewPath(nodes, paths, i, c, j); }
    forall j | 0 <= j < |nodes'| ensures EdgesAt(nodes', paths', j) { NewEdges(nodes, paths, i, c, j); }
    forall j | 0 < j < |nodes'|
      ensures paths'[j] != [] && HasParent(nodes', paths', j) { NewParent(nodes, paths, i, c, j); }
  }

  /** A node that no word spells yet holds none. */
  lemma {:induction false} NotSpelled(words: seq<Word>, path: seq<int>)
    requires forall i :: 0 <= i < |words| ==> words[i].path != path
    ensures Spelled(words, path) == []
  {
    if words != [] { NotSpelled(words[..|words| - 1], path); }
  }

  lemma NewHolding(nodes: seq<Node>, paths: seq<seq<int>>, words: seq<Word>, i: int, c: int)
    requires Shaped(nodes, paths) && Holding(nodes, paths, words) && 0 <= i < |nodes| && c !in nodes[i].children
    ensures Holding(WithChild(nodes, i, c), paths + [paths[i] + [c]], words)
  {
    hide Shaped, Spelled, Labels, Scores;
    var nodes', paths' := WithChild(nodes, i, c), paths + [paths[i] + [c]];
    forall j | 0 <= j < |nodes'| ensures HoldsAt(nodes'[j], paths'[j], words) {
      if j < |nodes| { assert HoldsAt(nodes[j], paths[j], words); } else { NewHoldsNone(nodes, paths, words, i, c); }
    }
  }

  lemma NewHoldsNone(nodes: seq<Node>, paths: seq<seq<int>>, words: seq<Word>, i: int, c: int)
    requires Shaped(nodes, paths) && Holding(nodes, paths, words) && 0 <= i < |nodes| && c !in nodes[i].children
    ensures HoldsAt(Node(map[], [], [], 0.0), paths[i] + [c], words)
  {
    hide Shaped, HoldsAt;
    forall k | 0 <= k < |words| ensures words[k].path != paths[i] + [c] {
      var j :| 0 <= j < |paths| && paths[j] == words[k].path;
      NewPath(nodes, paths, i, c, j);
    }
    NotSpelled(words, paths[i] + [c]);
    NoneHeld(paths[i] + [c], words);
  }

  lemma NoneHeld(path: seq<int>, words: seq<Word>)
    requires Spelled(words, path) == []
    ensures HoldsAt(Node(map[], [], [], 0.0), path, words)
  {
  }

  // ---- A new word

  lemma SpelledSnoc(words: seq<Word>, w: Word, path: seq<int>)
    ensures Spelled(words + [w], path) == if w.path == path then Spelled(words, path) + [w] else Spelled(words, path)
  {
    assert (words + [w])[..|words|] == words;
  }

  /** A node with one more word. */
  function WithWord(node: Node, name: int, score: real): Node {
    node.(labels := node.labels + [name], scores := node.scores + [score])
  }

  lemma WordHeld(nodes: seq<Node>, paths: seq<seq<int>>, words: seq<Word>, i: int, w: Word)
    requires Shaped(nodes, paths) && Holding(nodes, paths, words) && 0 <= i < |nodes| && paths[i] == w.path
    ensures Holding(nodes[i := WithWord(nodes[i], w.name, w.score)], paths, words + [w])
  {
    hide Spelled, EdgesAt, HasParent;
    var nodes' := nodes[i := WithWord(nodes[i], w.name, w.score)];
    forall j | 0 <= j < |nodes| ensures HoldsAt(nodes'[j], paths[j], words + [w]) {
      assert HoldsAt(nodes[j], paths[j], words);
      SpelledSnoc(words, w, paths[j]);
      if j == i {
        var s := Spelled(words, paths[j]);
        assert Labels(s + [w]) == Labels(s) + [w.name] && Scores(s + [w]) == Scores(s) + [w.score];
      } else {
        assert paths[j] != paths[i];
      }
    }
  }

  /** Nodes that differ in nothing but what they hold have the same shape. */
  lemma SameShape(nodes: seq<Node>, nodes': seq<Node>, paths: seq<seq<int>>)
    requires Shaped(nodes, paths) && |nodes'| == |nodes|
    requires forall i :: 0 <= i < |nodes| ==> nodes'[i].children == nodes[i].children
    ensures Shaped(nodes', paths)
  {
    forall i | 0 <= i < |nodes| ensures EdgesAt(nodes', paths, i) { assert EdgesAt(nodes, paths, i); }
    forall j | 0 < j < |nodes| ensures paths[j] != [] && HasParent(nodes', paths, j) {
      assert HasParent(nodes, paths, j);
      var p :| 0 <= p < j && HangsBelow(nodes, paths, p, j);
      assert HangsBelow(nodes', paths, p, j);
    }
  }

  predicate Begins(p: seq<int>, s: seq<int>) {
    p <= s
  }

  /** A prefix is valid up to the first index that is not. */
  lemma ValidPrefix(indices: seq<int>, i: nat, max: int, p: seq<int>)
    requires i < |indices| && Tokens(indices[..i], max) && !(0 <= indices[i] < max)
    ensures Begins(p, indices) && Tokens(p, max) <==> Begins(p, indices[..i])
  {
    if p <= indices[..i] {
      forall k | 0 <= k < |p| ensures 0 <= p[k] < max { assert p[k] == indices[..i][k]; }
    }
  }

  lemma PrefixTokens(p: seq<int>, s: seq<int>, max: int)
    requires Begins(p, s) && Tokens(s, max)
    ensures Tokens(p, max)
  {
    forall k | 0 <= k < |p| ensures 0 <= p[k] < max { assert p[k] == s[k]; }
  }

  lemma PrefixSnoc(p: seq<int>, s: seq<int>, x: int)
    ensures Begins(p, s + [x]) <==> Begins(p, s) || p == s + [x]
  {
    if p <= s + [x] && |p| <= |s| { assert p == (s + [x])[..|p|] == s[..|p|]; }
  }

  /** The walk along a path reaches an index out of range. */
  ghost predicate BadAt(paths: seq<seq<int>>, indices: seq<int>, max: int, i: int) {
    0 <= i < |indices| && !(0 <= indices[i] < max) && indices[..i] in paths
  }

  /** Then it is no path, for all paths are in range. */
  lemma BadHere(paths: seq<seq<int>>, indices: seq<int>, max: int, i: int)
    requires 0 <= i < |indices| && !(0 <= indices[i] < max) && indices[..i] in paths
    requires forall k :: 0 <= k < |paths| ==> Tokens(paths[k], max)
    ensures BadAt(paths, indices, max, i) && indices !in paths
  {
  }

  class Trie {
    const maxChildren: int
    var nodes: seq<Node>
    ghost var paths: seq<seq<int>>
    ghost var words: seq<Word>

    ghost predicate Valid()
      reads this
    {
      && Shaped(nodes, paths) && Holding(nodes, paths, words)
      && forall i :: 0 <= i < |paths| ==> Tokens(paths[i], maxChildren)
    }

    constructor (maxChildren: int)
      ensures Valid() && this.maxChildren == maxChildren && words == []
    {
      this.maxChildren := maxChildren;
      nodes, paths, words := [Node(map[], [], [], 0.0)], [[]], [];
      new;
      NoneHeld([], []);
    }

    /** At most six words share a spelling; a seventh is dropped. An index out of
        range is refused, and the words stay as they were. */
    method Insert(indices: seq<int>, name: int, score: real) returns (r: Outcome)
      requires Valid()
      modifies this
      ensures Valid() && old(paths) <= paths
      ensures forall p :: p in paths <==> p in old(paths) || (Begins(p, indices) && Tokens(p, maxChildren))
      ensures !Tokens(indices, maxChildren) ==> r == InvalidIndex && words == old(words)
      ensures Tokens(indices, maxChildren) ==> r.Found? && 0 <= r.node < |nodes| && paths[r.node] == indices
      ensures Tokens(indices, maxChildren) ==>
        words == if |Spelled(old(words), indices)| < MAX_LABELS then old(words) + [Word(indices, name, score)]
          else old(words)
    {
      hide Shaped, Holding, Spelled;
      var node := 0;
      RootPath(nodes, paths);
      for i := 0 to |indices|
        invariant Valid() && old(paths) <= paths && words == old(words)
        invariant 0 <= node < |nodes| && |paths| == |nodes| && paths[node] == indices[..i]
        invariant Tokens(indices[..i], maxChildren)
        invariant forall p :: p in paths <==> p in old(paths) || Begins(p, indices[..i])
      {
        var idx := indices[i];
        if idx < 0 || idx >= maxChildren {
          forall p ensures Begins(p, indices) && Tokens(p, maxChildren) <==> Begins(p, indices[..i]) {
            ValidPrefix(indices, i, maxChildren, p);
          }
          return InvalidIndex;
        }
        assert indices[..i + 1] == indices[..i] + [idx];
        forall p ensures Begins(p, indices[..i + 1]) <==> Begins(p, indices[..i]) || p == indices[..i] + [idx] {
          PrefixSnoc(p, indices[..i], idx);
        }
        node := Descend(node, idx);
      }
      assert indices[..|indices|] == indices;
      forall p | Begins(p, indices) ensures Tokens(p, maxChildren) { PrefixTokens(p, indices, maxChildren); }
      HeldCount(nodes, paths, words, node);
      if |nodes[node].labels| < MAX_LABELS {
        ghost var w := Word(indices, name, score);
        WordHeld(nodes, paths, words, node, w);
        var nodes' := nodes[node := WithWord(nodes[node], name, score)];
        SameShape(nodes, nodes', paths);
        nodes, words := nodes', words + [w];
      }
      r := Found(node);
    }

    /** The child for a token, made if there is none. */
    method Descend(node: int, idx: int) returns (child: int)
      requires Valid() && 0 <= node < |nodes| && |paths| == |nodes| && 0 <= idx < maxChildren
      modifies this
      ensures Valid() && old(paths) <= paths && words == old(words) && |paths| == |nodes|
      ensures 0 <= child < |nodes| && paths[child] == old(paths)[node] + [idx]
      ensures forall p :: p in paths <==> p in old(paths) || p == old(paths)[node] + [idx]
    {
      hide Shaped, Holding;
      if idx !in nodes[node].children {
        NewNode(nodes, paths, node, idx);
        NewHolding(nodes, paths, words, node, idx);
        nodes, paths := WithChild(nodes, node, idx), paths + [paths[node] + [idx]];
      }
      ChildPath(nodes, paths, node, idx);
      child := nodes[node].children[idx];
    }

    /** After smearing, every node carries what its mode promises of the words that can
        still be spelled from it: their total mass, or the largest mass of a spelling. */
    method Smear(mode: Mode)
      requires Valid() && Nonneg(words)
      modifies `nodes
      ensures Valid() && OnlyMax(old(nodes), nodes)
      ensures mode == None ==> nodes == old(nodes)
      ensures forall k :: 0 <= k < |nodes| ==> IsSmeared(mode, words, paths[k], nodes[k].maxScore)
    {
      hide IsSmeared;
      if mode != None {
        SmearNode(0, mode);
        assert forall k :: 0 <= k < |nodes| ==> paths[0] <= paths[k];
      } else {
        NoneSmeared(words, nodes, paths);
      }
    }

    method SmearNode(i: int, mode: Mode)
      requires Valid() && Nonneg(words) && mode != None && 0 <= i < |nodes| == |paths|
      modifies `nodes
      ensures Valid() && OnlyMax(old(nodes), nodes) && |nodes| == |paths|
      ensures SmearedBelow(mode, words, nodes, paths, paths[i]) && SameOutside(old(nodes), nodes, paths, paths[i])
      decreases |nodes| - i
    {
      hide Shaped, Holding, IsSmeared, OnlyMax, SmearedInto, SmearedBelow, SameOutside, PartlyIn, Total, OwnMass;
      ghost var before, p := nodes, paths[i];
      HeldMass(nodes, paths, words, i);
      var maxScore := Add(nodes[i].scores);
      PartlyStart(mode, words, p);
      var keys, children := nodes[i].children.Keys, nodes[i].children;
      ghost var done: set<int> := {};
      StartInto(mode, words, nodes, paths, p);
      while keys != {}
        invariant Valid() && OnlyMax(before, nodes) && |nodes| == |paths| == |before| && nodes[i].children == children
        invariant keys + done == children.Keys && keys !! done
        invariant SmearedInto(mode, words, nodes, paths, p, done) && SameOutside(before, nodes, paths, p)
        invariant PartlyIn(mode, words, p, done, maxScore)
        decreases keys
      {
        Inhabited(keys);
        var k :| k in keys;
        assert k in children.Keys;
        ChildPath(nodes, paths, i, k);
        ghost var nodes0 := nodes;
        SmearNode(children[k], mode);
        SameChildren(nodes0, nodes, i);
        OnlyMaxTrans(before, nodes0, nodes);
        SmearChild(mode, words, nodes0, nodes, paths, p, done, k);
        OutsideTrans(before, nodes0, nodes, paths, p, k);
        BelowAt(mode, words, nodes, paths, children[k]);
        PartlyNext(mode, words, p, done, k, maxScore, nodes[children[k]].maxScore);
        maxScore := Joined(mode, maxScore, nodes[children[k]].maxScore);
        done, keys := done + {k}, keys - {k};
      }
      assert done == children.Keys;
      PartlyDone(mode, nodes, paths, words, i, maxScore);
      StoreScore(mode, before, nodes, paths, words, i, maxScore);
      nodes := nodes[i := nodes[i].(maxScore := maxScore)];
    }

    /** A path is found exactly when some insertion went along it; the node holds the
        words it spells. */
    method Search(indices: seq<int>) returns (r: Outcome)
      requires Valid()
      ensures r.Found? <==> indices in paths
      ensures r.Found? ==> 0 <= r.node < |nodes| && HoldsAt(nodes[r.node], indices, words)
      ensures r == InvalidIndex <==> exists i :: BadAt(paths, indices, maxChildren, i)
    {
      hide Shaped, Holding, HoldsAt;
      var node := 0;
      RootPath(nodes, paths);
      for i := 0 to |indices|
        invariant 0 <= node < |nodes| && |paths| == |nodes| && paths[node] == indices[..i]
        invariant forall j :: 0 <= j < i ==> 0 <= indices[j] < maxChildren
      {
        var idx := indices[i];
        if idx < 0 || idx >= maxChildren {
          BadHere(paths, indices, maxChildren, i);
          return InvalidIndex;
        }
        if idx !in nodes[node].children {
          NotReached(nodes, paths, node, indices);
          forall j ensures !BadAt(paths, indices, maxChildren, j) {
            if i < j <= |indices| { NotReached(nodes, paths, node, indices[..j]); }
          }
          return Missing;
        }
        ChildPath(nodes, paths, node, idx);
        assert indices[..i + 1] == indices[..i] + [idx];
        node := nodes[node].children[idx];
      }
      assert indices[..|indices|] == indices;
      HeldCount(nodes, paths, words, node);
      r := Found(node);
    }
  }

  // ---- Smearing

  /** Only smeared scores differ. */
  ghost predicate OnlyMax(nodes: seq<Node>, nodes': seq<Node>) {
    |nodes| == |nodes'| && forall k :: 0 <= k < |nodes| ==> nodes'[k] == nodes[k].(maxScore := nodes'[k].maxScore)
  }

  lemma OnlyMaxTrans(a: seq<Node>, b: seq<Node>, c: seq<Node>)
    requires OnlyMax(a, b) && OnlyMax(b, c)
    ensures OnlyMax(a, c)
  {
    forall k | 0 <= k < |a| ensures c[k] == a[k].(maxScore := c[k].maxScore) {
      assert b[k] == a[k].(maxScore := b[k].maxScore);
    }
  }

  lemma OnlyMaxKeeps(nodes: seq<Node>, nodes': seq<Node>, paths: seq<seq<int>>, words: seq<Word>)
    requires OnlyMax(nodes, nodes') && Shaped(nodes, paths) && Holding(nodes, paths, words)
    ensures Shaped(nodes', paths) && Holding(nodes', paths, words)
  {
    hide Spelled;
    SameShape(nodes, nodes', paths);
    forall i | 0 <= i < |nodes'|
      ensures HoldsAt(nodes'[i], paths[i], words) { assert HoldsAt(nodes[i], paths[i], words); }
  }

  /** A path that goes on from p by a token of S. */
  predicate GoesInto(path: seq<int>, p: seq<int>, S: set<int>) {
    p <= path && |p| < |path| && path[|p|] in S
  }

  /** The nodes below p through S are smeared. */
  ghost predicate SmearedInto(mode: Mode, words: seq<Word>, nodes: seq<Node>, paths: seq<seq<int>>, p: seq<int>,
                              S: set<int>) {
    |nodes| == |paths| && forall k :: 0 <= k < |nodes| && GoesInto(paths[k], p, S) ==>
      IsSmeared(mode, words, paths[k], nodes[k].maxScore)
  }

  ghost predicate SmearedBelow(mode: Mode, words: seq<Word>, nodes: seq<Node>, paths: seq<seq<int>>, p: seq<int>) {
    |nodes| == |paths| && forall k :: 0 <= k < |nodes| && p <= paths[k] ==>
      IsSmeared(mode, words, paths[k], nodes[k].maxScore)
  }

  /** Nothing outside the nodes below p changed. */
  ghost predicate SameOutside(nodes: seq<Node>, nodes': seq<Node>, paths: seq<seq<int>>, p: seq<int>) {
    |nodes| == |nodes'| == |paths| && forall k :: 0 <= k < |nodes| && !(p <= paths[k]) ==> nodes'[k] == nodes[k]
  }

  lemma GoesNext(path: seq<int>, p: seq<int>, k: int)
    ensures p + [k] <= path <==> GoesInto(path, p, {k})
  {
    if GoesInto(path, p, {k}) { assert path[..|p| + 1] == p + [k]; }
  }

  /** Smearing one more child. */
  lemma SmearChild(mode: Mode, words: seq<Word>, nodes: seq<Node>, nodes': seq<Node>, paths: seq<seq<int>>,
                   p: seq<int>, S: set<int>, k: int)
    requires SmearedInto(mode, words, nodes, paths, p, S) && k !in S
    requires SmearedBelow(mode, words, nodes', paths, p + [k]) && SameOutside(nodes, nodes', paths, p + [k])
    ensures SmearedInto(mode, words, nodes', paths, p, S + {k})
  {
    hide IsSmeared;
    forall i | 0 <= i < |nodes'| && GoesInto(paths[i], p, S + {k})
      ensures IsSmeared(mode, words, paths[i], nodes'[i].maxScore) {
      GoesNext(paths[i], p, k);
    }
  }

  lemma OutsideTrans(a: seq<Node>, b: seq<Node>, c: seq<Node>, paths: seq<seq<int>>, p: seq<int>, k: int)
    requires SameOutside(a, b, paths, p) && SameOutside(b, c, paths, p + [k])
    ensures SameOutside(a, c, paths, p)
  {
    forall i | 0 <= i < |a| && !(p <= paths[i]) ensures c[i] == a[i] { GoesNext(paths[i], p, k); }
  }

  /** The score of a node while its children S are in. */
  ghost predicate PartlyIn(mode: Mode, words: seq<Word>, path: seq<int>, S: set<int>, v: real) {
    match mode
    case None => true
    case LogAdd => v == MassIn(words, path, S)
    case Max => IsTopIn(words, path, S, v)
  }

  lemma PartlyStart(mode: Mode, words: seq<Word>, path: seq<int>)
    requires Nonneg(words)
    ensures PartlyIn(mode, words, path, {}, OwnMass(words, path))
  {
    hide OwnMass, MassIn, IsTopIn;
    MassOwn(words, path);
    TopOwn(words, path);
  }

  lemma PartlyNext(mode: Mode, words: seq<Word>, path: seq<int>, S: set<int>, k: int, v: real, u: real)
    requires PartlyIn(mode, words, path, S, v) && IsSmeared(mode, words, path + [k], u) && k !in S
    ensures PartlyIn(mode, words, path, S + {k}, Joined(mode, v, u))
  {
    hide MassIn, IsTopIn, IsTopBelow, MassBelow;
    if mode == LogAdd { MassChild(words, path, S, k); }
    if mode == Max { TopChild(words, path, S, k, v, u); }
  }

  function Joined(mode: Mode, v: real, u: real): real {
    match mode
    case None => v
    case LogAdd => v + u
    case Max => if u > v then u else v
  }

  /** With all children in, the node is smeared. */
  lemma PartlyDone(mode: Mode, nodes: seq<Node>, paths: seq<seq<int>>, words: seq<Word>, i: int, v: real)
    requires Shaped(nodes, paths) && Holding(nodes, paths, words) && 0 <= i < |nodes|
    requires PartlyIn(mode, words, paths[i], nodes[i].children.Keys, v)
    ensures IsSmeared(mode, words, paths[i], v)
  {
    hide Shaped, HoldsAt, MassIn, IsTopIn, IsTopBelow, MassBelow;
    var p, S := paths[i], nodes[i].children.Keys;
    forall k | 0 <= k < |words| && p <= words[k].path ensures Continues(words[k], p, S) {
      var j :| 0 <= j < |paths| && paths[j] == words[k].path;
      if |p| < |paths[j]| { ChildReached(nodes, paths, i, j); }
    }
    if mode == LogAdd { MassAll(words, p, S); }
    if mode == Max { TopAll(words, p, S, v); }
  }

  /** A node and everything through its children is everything below it. */
  lemma AllBelow(mode: Mode, words: seq<Word>, nodes: seq<Node>, paths: seq<seq<int>>, i: int)
    requires Shaped(nodes, paths) && 0 <= i < |nodes|
    requires SmearedInto(mode, words, nodes, paths, paths[i], nodes[i].children.Keys)
    requires IsSmeared(mode, words, paths[i], nodes[i].maxScore)
    ensures SmearedBelow(mode, words, nodes, paths, paths[i])
  {
    hide Shaped, IsSmeared;
    forall k | 0 <= k < |nodes| && paths[i] <= paths[k] ensures IsSmeared(mode, words, paths[k], nodes[k].maxScore) {
      if |paths[i]| < |paths[k]| {
        ChildReached(nodes, paths, i, k);
        assert GoesInto(paths[k], paths[i], nodes[i].children.Keys);
      } else {
        assert paths[k] == paths[i];
        SamePath(nodes, paths, i, k);
      }
    }
  }

  lemma SamePath(nodes: seq<Node>, paths: seq<seq<int>>, i: int, k: int)
    requires Shaped(nodes, paths) && 0 <= i < |paths| && 0 <= k < |paths| && paths[i] == paths[k]
    ensures i == k
  {
  }

  lemma Inhabited(s: set<int>)
    ensures s == {} || exists k :: k in s
  {
    if forall k :: k !in s { assert s == {}; }
  }

  method Add(scores: seq<real>) returns (total: real)
    ensures total == Total(scores)
  {
    total := 0.0;
    for j := 0 to |scores|
      invariant total == Total(scores[..j])
    {
      assert scores[..j + 1][..j] == scores[..j];
      total := total + scores[j];
    }
    assert scores[..|scores|] == scores;
  }

  lemma HeldMass(nodes: seq<Node>, paths: seq<seq<int>>, words: seq<Word>, i: int)
    requires Holding(nodes, paths, words) && 0 <= i < |nodes|
    ensures |nodes| == |paths| && Total(nodes[i].scores) == OwnMass(words, paths[i])
  {
    assert HoldsAt(nodes[i], paths[i], words);
  }

  lemma StartInto(mode: Mode, words: seq<Word>, nodes: seq<Node>, paths: seq<seq<int>>, p: seq<int>)
    requires |nodes| == |paths|
    ensures SmearedInto(mode, words, nodes, paths, p, {}) && OnlyMax(nodes, nodes)
    ensures SameOutside(nodes, nodes, paths, p)
  {
  }

  lemma SameChildren(nodes: seq<Node>, nodes': seq<Node>, i: int)
    requires OnlyMax(nodes, nodes') && 0 <= i < |nodes|
    ensures |nodes'| == |nodes| && nodes'[i].children == nodes[i].children
  {
  }

  lemma BelowAt(mode: Mode, words: seq<Word>, nodes: seq<Node>, paths: seq<seq<int>>, i: int)
    requires 0 <= i < |nodes| == |paths| && SmearedBelow(mode, words, nodes, paths, paths[i])
    ensures IsSmeared(mode, words, paths[i], nodes[i].maxScore)
  {
  }

  lemma NoneSmeared(words: seq<Word>, nodes: seq<Node>, paths: seq<seq<int>>)
    requires |nodes| == |paths|
    ensures forall k :: 0 <= k < |nodes| ==> IsSmeared(None, words, paths[k], nodes[k].maxScore)
  {
  }

  lemma StoreScore(mode: Mode, before: seq<Node>, nodes: seq<Node>, paths: seq<seq<int>>, words: seq<Word>, i: int,
                   v: real)
    requires Shaped(nodes, paths) && Holding(nodes, paths, words) && OnlyMax(before, nodes)
    requires 0 <= i < |nodes| == |paths|
    requires SmearedInto(mode, words, nodes, paths, paths[i], nodes[i].children.Keys)
    requires SameOutside(before, nodes, paths, paths[i])
    requires IsSmeared(mode, words, paths[i], v)
    ensures var nodes' := nodes[i := nodes[i].(maxScore := v)];
      && Shaped(nodes', paths) && Holding(nodes', paths, words) && OnlyMax(before, nodes')
      && SmearedBelow(mode, words, nodes', paths, paths[i]) && SameOutside(before, nodes', paths, paths[i])
  {
    hide Shaped, Holding, IsSmeared;
    var nodes' := nodes[i := nodes[i].(maxScore := v)];
    assert OnlyMax(nodes, nodes');
    OnlyMaxKeeps(nodes, nodes', paths, words);
    AllBelow(mode, words, nodes', paths, i);
  }

  lemma RootPath(nodes: seq<Node>, paths: seq<seq<int>>)
    requires Shaped(nodes, paths)
    ensures |nodes| == |paths| >= 1 && paths[0] == []
  {
  }

  lemma ChildPath(nodes: seq<Node>, paths: seq<seq<int>>, i: int, c: int)
    requires Shaped(nodes, paths) && 0 <= i < |nodes| && c in nodes[i].children
    ensures |paths| == |nodes| && i < nodes[i].children[c] < |nodes| && paths[nodes[i].children[c]] == paths[i] + [c]
  {
    assert EdgesAt(nodes, paths, i);
  }

  lemma HeldCount(nodes: seq<Node>, paths: seq<seq<int>>, words: seq<Word>, i: int)
    requires Holding(nodes, paths, words) && 0 <= i < |nodes|
    ensures |paths| == |nodes| && HoldsAt(nodes[i], paths[i], words) && |nodes[i].labels| == |Spelled(words, paths[i])|
  {
    assert HoldsAt(nodes[i], paths[i], words);
  }

  lemma NotReached(nodes: seq<Node>, paths: seq<seq<int>>, i: int, indices: seq<int>)
    requires Shaped(nodes, paths) && 0 <= i < |nodes| && |paths| == |nodes| && paths[i] <= indices
    requires |paths[i]| < |indices| && indices[|paths[i]|] !in nodes[i].children
    ensures indices !in paths
  {
    hide Shaped;
    if indices in paths {
      var j :| 0 <= j < |paths| && paths[j] == indices;
      ChildReached(nodes, paths, i, j);
    }
  }
}
