/** Repetition labels: `packReplabels` and `unpackReplabels`. rep[i] is the index
    of the label that stands for i repetitions; rep[0] is not used. */
module Replabels {
  import opened Transforms

  predicate IsRep(rep: seq<int>, max: nat) {
    |rep| == max + 1 && (forall i, j :: 1 <= i < j <= max ==> rep[i] != rep[j])
  }

  /** The number of repetitions a label stands for, 0 if it is no repetition label. */
  function Value(rep: seq<int>, max: nat, token: int): (v: nat)
    requires |rep| == max + 1
    ensures v <= max && (v > 0 ==> rep[v] == token)
    ensures v == 0 <==> forall i :: 1 <= i <= max ==> rep[i] != token
  {
    ValueUpTo(rep, max, token)
  }

  function ValueUpTo(rep: seq<int>, k: nat, token: int): (v: nat)
    requires k < |rep|
    ensures v <= k && (v > 0 ==> rep[v] == token)
    ensures v == 0 <==> forall i :: 1 <= i <= k ==> rep[i] != token
  {
    if k == 0 then 0
    else if ValueUpTo(rep, k - 1, token) > 0 then ValueUpTo(rep, k - 1, token)
    else if rep[k] == token then k else 0
  }

  /** A label that is listed twice keeps its first count. */
  lemma {:induction false} ValueIsFirst(rep: seq<int>, k: nat, token: int, i: nat)
    requires k < |rep| && 1 <= i <= k && rep[i] == token
    ensures 1 <= ValueUpTo(rep, k, token) <= i
  {
    if i < k { ValueIsFirst(rep, k - 1, token, i); }
  }

  function Repeat(x: int, n: nat): (r: seq<int>)
    ensures |r| == n && forall i :: 0 <= i < n ==> r[i] == x
  {
    seq(n, _ => x)
  }

  // ---- Packing and unpacking as folds

  datatype Packing = Packing(out: seq<int>, prev: int, reps: nat)

  function Flush(rep: seq<int>, s: Packing): seq<int>
    requires s.reps < |rep|
  {
    if s.reps > 0 then s.out + [rep[s.reps]] else s.out
  }

  function PackTo(rep: seq<int>, max: nat, tokens: seq<int>): (s: Packing)
    requires |rep| == max + 1
    ensures s.reps <= max
  {
    if tokens == [] then Packing([], -1, 0)
    else
      var n := |tokens| - 1;
      PackStep(rep, max, PackTo(rep, max, tokens[..n]), tokens[n])
  }

  function PackStep(rep: seq<int>, max: nat, s: Packing, token: int): (s': Packing)
    requires |rep| == max + 1 && s.reps <= max
    ensures s'.reps <= max
  {
    if token == s.prev && s.reps < max then s.(reps := s.reps + 1) else Packing(Flush(rep, s) + [token], token, 0)
  }

  function Packed(rep: seq<int>, max: nat, tokens: seq<int>): seq<int>
    requires |rep| == max + 1
  {
    if max == 0 then tokens else Flush(rep, PackTo(rep, max, tokens))
  }

  datatype Unpacking = Unpacking(out: seq<int>, prev: int)

  function UnpackTo(rep: seq<int>, max: nat, tokens: seq<int>): Unpacking
    requires |rep| == max + 1
  {
    if tokens == [] then Unpacking([], -1)
    else
      var n := |tokens| - 1;
      UnpackStep(rep, max, UnpackTo(rep, max, tokens[..n]), tokens[n])
  }

  function UnpackStep(rep: seq<int>, max: nat, s: Unpacking, token: int): Unpacking
    requires |rep| == max + 1
  {
    var v := Value(rep, max, token);
    if v == 0 then Unpacking(s.out + [token], token)
    else if s.prev != -1 then Unpacking(s.out + Repeat(s.prev, v), -1) else s
  }

  function Unpacked(rep: seq<int>, max: nat, tokens: seq<int>): seq<int>
    requires |rep| == max + 1
  {
    if max == 0 then tokens else UnpackTo(rep, max, tokens).out
  }

  lemma UnpackSnoc(rep: seq<int>, max: nat, tokens: seq<int>, x: int)
    requires |rep| == max + 1
    ensures UnpackTo(rep, max, tokens + [x]) == UnpackStep(rep, max, UnpackTo(rep, max, tokens), x)
  {
    assert (tokens + [x])[..|tokens|] == tokens;
  }

  lemma PackSnoc(rep: seq<int>, max: nat, tokens: seq<int>, x: int)
    requires |rep| == max + 1
    ensures PackTo(rep, max, tokens + [x]) == PackStep(rep, max, PackTo(rep, max, tokens), x)
  {
    assert (tokens + [x])[..|tokens|] == tokens;
  }

  // ---- The round trip

  ghost predicate Plain(rep: seq<int>, max: nat, tokens: seq<int>)
    requires |rep| == max + 1
  {
    forall i :: 0 <= i < |tokens| ==> Value(rep, max, tokens[i]) == 0
  }

  predicate Indices(tokens: seq<int>) {
    forall i :: 0 <= i < |tokens| ==> tokens[i] >= 0
  }

  /** What has been packed so far unpacks to all but the repetitions still counted. */
  ghost predicate Unpacks(rep: seq<int>, max: nat, tokens: seq<int>, s: Packing)
    requires |rep| == max + 1
  {
    var u := UnpackTo(rep, max, s.out);
    && u.out + Repeat(s.prev, s.reps) == tokens && u.prev == s.prev && s.reps <= max
    && (if tokens == [] then s == Packing([], -1, 0)
        else s.prev >= 0 && Value(rep, max, s.prev) == 0 && s.out != [] && s.out[|s.out| - 1] == s.prev)
    && NoAdjacentEqual(s.out)
  }

  lemma FlushUnpacks(rep: seq<int>, max: nat, tokens: seq<int>, s: Packing)
    requires IsRep(rep, max) && Unpacks(rep, max, tokens, s)
    ensures UnpackTo(rep, max, Flush(rep, s)).out == tokens && NoAdjacentEqual(Flush(rep, s))
    ensures s.reps > 0 ==> Value(rep, max, Flush(rep, s)[|Flush(rep, s)| - 1]) > 0
  {
    hide UnpackTo, ValueUpTo;
    if s.reps > 0 {
      UnpackSnoc(rep, max, s.out, rep[s.reps]);
      assert Value(rep, max, rep[s.reps]) == s.reps;
    } else {
      assert tokens == UnpackTo(rep, max, s.out).out + Repeat(s.prev, 0);
    }
  }

  lemma PackStepUnpacks(rep: seq<int>, max: nat, tokens: seq<int>, s: Packing, x: int)
    requires IsRep(rep, max) && max >= 1 && Unpacks(rep, max, tokens, s) && x >= 0 && Value(rep, max, x) == 0
    ensures Unpacks(rep, max, tokens + [x], PackStep(rep, max, s, x))
  {
    hide UnpackTo, ValueUpTo;
    if x == s.prev && s.reps < max {
      assert Repeat(s.prev, s.reps + 1) == Repeat(s.prev, s.reps) + [x];
    } else {
      FlushUnpacks(rep, max, tokens, s);
      UnpackSnoc(rep, max, Flush(rep, s), x);
      assert tokens + [x] + Repeat(x, 0) == tokens + [x];
    }
  }

  lemma {:induction false} PackUnpacks(rep: seq<int>, max: nat, tokens: seq<int>)
    requires IsRep(rep, max) && max >= 1 && Indices(tokens) && Plain(rep, max, tokens)
    ensures Unpacks(rep, max, tokens, PackTo(rep, max, tokens))
  {
    hide Unpacks, PackTo;
    if tokens == [] {
      StartUnpacks(rep, max);
    } else {
      var n := |tokens| - 1;
      PackUnpacks(rep, max, tokens[..n]);
      PackStepUnpacks(rep, max, tokens[..n], PackTo(rep, max, tokens[..n]), tokens[n]);
      PackSnoc(rep, max, tokens[..n], tokens[n]);
      assert tokens[..n] + [tokens[n]] == tokens;
    }
  }

  lemma StartUnpacks(rep: seq<int>, max: nat)
    requires IsRep(rep, max)
    ensures Unpacks(rep, max, [], PackTo(rep, max, []))
  {
    assert [] + Repeat(-1, 0) == [];
  }

  /** Unpacking never yields a repetition label. */
  lemma {:induction false} UnpackPlain(rep: seq<int>, max: nat, tokens: seq<int>)
    requires |rep| == max + 1
    ensures var u := UnpackTo(rep, max, tokens);
      Plain(rep, max, u.out) && (u.prev == -1 || Value(rep, max, u.prev) == 0)
  {
    hide ValueUpTo;
    if tokens != [] { UnpackPlain(rep, max, tokens[..|tokens| - 1]); }
  }

  // ---- What unpacking makes of any sequence

  /** What the label at position i turns into: itself, or for a repetition label that many
      copies of a plain label just before it; a label after a label says nothing. */
  function Piece(rep: seq<int>, max: nat, tokens: seq<int>, i: int): seq<int>
    requires |rep| == max + 1 && 0 <= i < |tokens|
  {
    var v := Value(rep, max, tokens[i]);
    if v == 0 then [tokens[i]]
    else if i > 0 && Value(rep, max, tokens[i - 1]) == 0 && tokens[i - 1] != -1 then Repeat(tokens[i - 1], v)
    else []
  }

  function Pieces(rep: seq<int>, max: nat, tokens: seq<int>, n: nat): seq<int>
    requires |rep| == max + 1 && n <= |tokens|
  {
    if n == 0 then [] else Pieces(rep, max, tokens, n - 1) + Piece(rep, max, tokens, n - 1)
  }

  lemma {:induction false} UnpackedSoFar(rep: seq<int>, max: nat, tokens: seq<int>, n: nat)
    requires |rep| == max + 1 && n <= |tokens|
    ensures var u := UnpackTo(rep, max, tokens[..n]);
      && u.out == Pieces(rep, max, tokens, n)
      && u.prev == if n > 0 && Value(rep, max, tokens[n - 1]) == 0 then tokens[n - 1] else -1
  {
    hide Value;
    if n > 0 {
      UnpackedSoFar(rep, max, tokens, n - 1);
      UnpackSnoc(rep, max, tokens[..n - 1], tokens[n - 1]);
      assert tokens[..n] == tokens[..n - 1] + [tokens[n - 1]];
    }
  }

  /** Any sequence, packed or not, unpacks piece by piece. */
  lemma UnpackedIsPieces(rep: seq<int>, max: nat, tokens: seq<int>)
    requires |rep| == max + 1 && max >= 1
    ensures Unpacked(rep, max, tokens) == Pieces(rep, max, tokens, |tokens|)
  {
    hide UnpackTo, Pieces;
    UnpackedSoFar(rep, max, tokens, |tokens|);
    assert tokens[..|tokens|] == tokens;
  }

  // ---- What packing makes of runs

  /** A run of n equal tokens in chunks of one token and at most max repetitions. */
  function PackedRun(rep: seq<int>, max: nat, x: int, n: nat): seq<int>
    requires |rep| == max + 1
  {
    if n == 0 then []
    else if n == 1 then [x]
    else if n <= max + 1 then [x, rep[n - 1]]
    else [x, rep[max]] + PackedRun(rep, max, x, n - (max + 1))
  }

  lemma {:induction false} RunChunk(rep: seq<int>, max: nat, x: int, s: Packing, n: nat)
    requires |rep| == max + 1 && max >= 1 && s.reps <= max && s.prev == x && n <= max - s.reps
    ensures PackMore(rep, max, s, Repeat(x, n)) == s.(reps := s.reps + n)
    decreases n
  {
    if n > 0 {
      RunChunk(rep, max, x, s, n - 1);
      assert Repeat(x, n)[..n - 1] == Repeat(x, n - 1);
    }
  }

  /** Packing on from a state. */
  function PackMore(rep: seq<int>, max: nat, s: Packing, tokens: seq<int>): (s': Packing)
    requires |rep| == max + 1 && s.reps <= max
    ensures s'.reps <= max
  {
    if tokens == [] then s
    else PackStep(rep, max, PackMore(rep, max, s, tokens[..|tokens| - 1]), tokens[|tokens| - 1])
  }

  lemma {:induction false} PackMoreTwice(rep: seq<int>, max: nat, s: Packing, a: seq<int>, b: seq<int>)
    requires |rep| == max + 1 && s.reps <= max
    ensures PackMore(rep, max, s, a + b) == PackMore(rep, max, PackMore(rep, max, s, a), b)
  {
    if b == [] {
      assert a + b == a;
    } else {
      var n := |b| - 1;
      PackMoreTwice(rep, max, s, a, b[..n]);
      assert (a + b)[..|a| + n] == a + b[..n];
    }
  }

  lemma {:induction false} PackToIsMore(rep: seq<int>, max: nat, tokens: seq<int>)
    requires |rep| == max + 1
    ensures PackTo(rep, max, tokens) == PackMore(rep, max, Packing([], -1, 0), tokens)
  {
    if tokens != [] { PackToIsMore(rep, max, tokens[..|tokens| - 1]); }
  }

  lemma PackOne(rep: seq<int>, max: nat, s: Packing, x: int)
    requires |rep| == max + 1 && s.reps <= max
    ensures PackMore(rep, max, s, [x]) == PackStep(rep, max, s, x)
  {
    assert [x][..0] == [];
    assert PackMore(rep, max, s, [x][..0]) == s;
  }

  /** A chunk: a token and at most max repetitions. */
  lemma ChunkPacks(rep: seq<int>, max: nat, s: Packing, x: int, n: nat)
    requires |rep| == max + 1 && max >= 1 && s.reps <= max && n <= max && (s.prev != x || s.reps == max)
    ensures PackMore(rep, max, s, Repeat(x, n + 1)) == Packing(Flush(rep, s) + [x], x, n)
  {
    hide PackMore, Flush;
    PackOne(rep, max, s, x);
    var first := PackMore(rep, max, s, [x]);
    RunChunk(rep, max, x, first, n);
    assert Repeat(x, n + 1) == [x] + Repeat(x, n);
    PackMoreTwice(rep, max, s, [x], Repeat(x, n));
  }

  /** A run of tokens after anything else, or after a full chunk of the same token. */
  lemma {:induction false} RunPacks(rep: seq<int>, max: nat, s: Packing, x: int, n: nat)
    requires |rep| == max + 1 && max >= 1 && s.reps <= max && n >= 1 && (s.prev != x || s.reps == max)
    ensures var s' := PackMore(rep, max, s, Repeat(x, n));
      s'.prev == x && Flush(rep, s') == Flush(rep, s) + PackedRun(rep, max, x, n)
    decreases n
  {
    hide PackMore;
    if n <= max + 1 {
      ChunkPacks(rep, max, s, x, n - 1);
    } else {
      var rest := n - (max + 1);
      ChunkPacks(rep, max, s, x, max);
      var full := PackMore(rep, max, s, Repeat(x, max + 1));
      RunPacks(rep, max, full, x, rest);
      assert Repeat(x, n) == Repeat(x, max + 1) + Repeat(x, rest);
      PackMoreTwice(rep, max, s, Repeat(x, max + 1), Repeat(x, rest));
      var before, tail := Flush(rep, s), PackedRun(rep, max, x, rest);
      assert Flush(rep, full) == before + [x, rep[max]];
      assert before + [x, rep[max]] + tail == before + ([x, rep[max]] + tail);
    }
  }

  /** Packing is run by run: a maximal run after a packed prefix adds its own packing. */
  lemma PackedByRuns(rep: seq<int>, max: nat, tokens: seq<int>, x: int, n: nat)
    requires |rep| == max + 1 && max >= 1 && n >= 1 && x != -1 && (tokens != [] ==> tokens[|tokens| - 1] != x)
    ensures Packed(rep, max, tokens + Repeat(x, n)) == Packed(rep, max, tokens) + PackedRun(rep, max, x, n)
  {
    hide PackMore, PackedRun, Flush;
    PackToIsMore(rep, max, tokens);
    PackToIsMore(rep, max, tokens + Repeat(x, n));
    PackMoreTwice(rep, max, Packing([], -1, 0), tokens, Repeat(x, n));
    LastPacked(rep, max, tokens);
    RunPacks(rep, max, PackTo(rep, max, tokens), x, n);
  }

  lemma {:induction false} LastPacked(rep: seq<int>, max: nat, tokens: seq<int>)
    requires |rep| == max + 1
    ensures PackTo(rep, max, tokens).prev == if tokens == [] then -1 else tokens[|tokens| - 1]
  {
    if tokens != [] { LastPacked(rep, max, tokens[..|tokens| - 1]); }
  }

  // ---- Both ways

  /** Unpacking undoes packing exactly on the token sequences without repetition labels. */
  lemma RoundTrip(rep: seq<int>, max: nat, tokens: seq<int>)
    requires IsRep(rep, max) && Indices(tokens)
    ensures Unpacked(rep, max, Packed(rep, max, tokens)) == tokens <==> Plain(rep, max, tokens)
  {
    hide Value, UnpackTo, PackTo, Unpacks;
    if max == 0 {
      forall i | 0 <= i < |tokens| ensures Value(rep, max, tokens[i]) == 0 { }
    } else {
      UnpackPlain(rep, max, Packed(rep, max, tokens));
      if Plain(rep, max, tokens) {
        PackUnpacks(rep, max, tokens);
        FlushUnpacks(rep, max, tokens, PackTo(rep, max, tokens));
      }
    }
  }

  lemma {:induction false} UniqKeeps(s: seq<int>)
    requires NoAdjacentEqual(s)
    ensures Uniq(s) == s
  {
    if |s| > 1 { UniqKeeps(s[..|s| - 1]); }
  }

  /** With replabels on, the deduplication of ASG targets drops nothing, and the
      targets have no equal neighbours. */
  lemma PackedIsUniq(rep: seq<int>, max: nat, tokens: seq<int>)
    requires IsRep(rep, max) && max >= 1 && Indices(tokens) && Plain(rep, max, tokens)
    ensures NoAdjacentEqual(Packed(rep, max, tokens)) && Uniq(Packed(rep, max, tokens)) == Packed(rep, max, tokens)
  {
    hide Uniq, Unpacks, PackTo, Value, NoAdjacentEqual;
    PackUnpacks(rep, max, tokens);
    FlushUnpacks(rep, max, tokens, PackTo(rep, max, tokens));
    UniqKeeps(Packed(rep, max, tokens));
  }

  // ---- The code

  method PackReplabels(tokens: seq<int>, rep: seq<int>, maxReps: int) returns (result: seq<int>)
    requires maxReps >= 0 ==> |rep| == maxReps + 1
    ensures result == if maxReps <= 0 then tokens else Packed(rep, maxReps, tokens)
  {
    hide PackTo;
    if maxReps <= 0 { return tokens; }
    if tokens == [] {
      PackNone(rep, maxReps);
      return tokens;
    }
    result := [];
    var prevToken, numReps := -1, 0;
    PackNone(rep, maxReps);
    assert tokens[..0] == [];
    for i := 0 to |tokens|
      invariant 0 <= numReps <= maxReps && Packing(result, prevToken, numReps) == PackTo(rep, maxReps, tokens[..i])
    {
      PackSnoc(rep, maxReps, tokens[..i], tokens[i]);
      assert tokens[..i + 1] == tokens[..i] + [tokens[i]];
      if tokens[i] == prevToken && numReps < maxReps {
        numReps := numReps + 1;
      } else {
        if numReps > 0 {
          result := result + [rep[numReps]];
          numReps := 0;
        }
        result := result + [tokens[i]];
        prevToken := tokens[i];
      }
    }
    assert tokens[..|tokens|] == tokens;
    if numReps > 0 { result := result + [rep[numReps]]; }
  }

  lemma PackNone(rep: seq<int>, max: nat)
    requires |rep| == max + 1
    ensures PackTo(rep, max, []) == Packing([], -1, 0)
  {
  }

  method UnpackReplabels(tokens: seq<int>, rep: seq<int>, maxReps: int) returns (result: seq<int>)
    requires maxReps >= 0 ==> |rep| == maxReps + 1
    ensures result == if maxReps <= 0 then tokens else Unpacked(rep, maxReps, tokens)
  {
    hide UnpackTo, Value;
    if maxReps <= 0 { return tokens; }
    UnpackNone(rep, maxReps);
    if tokens == [] { return tokens; }
    var values := LabelValues(rep, maxReps);
    result := [];
    var prevToken := -1;
    assert tokens[..0] == [];
    for i := 0 to |tokens|
      invariant Unpacking(result, prevToken) == UnpackTo(rep, maxReps, tokens[..i])
    {
      UnpackSnoc(rep, maxReps, tokens[..i], tokens[i]);
      assert tokens[..i + 1] == tokens[..i] + [tokens[i]];
      if tokens[i] !in values {
        result := result + [tokens[i]];
        prevToken := tokens[i];
      } else if prevToken != -1 {
        result := result + Repeat(prevToken, values[tokens[i]]);
        prevToken := -1;
      }
    }
    assert tokens[..|tokens|] == tokens;
  }

  lemma UnpackNone(rep: seq<int>, max: nat)
    requires |rep| == max + 1
    ensures UnpackTo(rep, max, []) == Unpacking([], -1)
  {
  }

  /** The map from repetition label to count; a label met twice keeps its first count. */
  method LabelValues(rep: seq<int>, max: nat) returns (values: map<int, nat>)
    requires |rep| == max + 1
    ensures forall token :: if token in values then values[token] == Value(rep, max, token) > 0
      else Value(rep, max, token) == 0
  {
    values := map[];
    for i := 1 to max + 1
      invariant forall token :: token in values ==> values[token] == ValueUpTo(rep, i - 1, token) > 0
      invariant forall token :: token !in values ==> ValueUpTo(rep, i - 1, token) == 0
    {
      if rep[i] !in values { values := values[rep[i] := i]; }
    }
  }
}
