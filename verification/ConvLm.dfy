/** The convolutional language model and the score cache in front of its network. */
module ConvLms {
  import opened Wrappers

  /** A language-model state: its address and the token history stored there. */
  datatype State = State(id: int, tokens: seq<int>)

  datatype Outcome<T> = Ok(value: T) | Err(error: Error)

  datatype Error = InvalidToken | CacheTooSmall | InvalidBatch

  /** The last n elements of s. */
  function LastOf(s: seq<int>, n: nat): seq<int> {
    if |s| <= n then s else s[|s| - n..]
  }

  /** The history kept after scoring the words of a sentence one by one. */
  function HistoryAfter(eos: int, limit: nat, words: seq<int>): seq<int> {
    if words == [] then [eos]
    else LastOf(HistoryAfter(eos, limit, words[..|words| - 1]) + [words[|words| - 1]], limit)
  }

  lemma LastOfSnoc(s: seq<int>, n: nat, x: int)
    requires n >= 1
    ensures LastOf(LastOf(s, n) + [x], n) == LastOf(s + [x], n)
  {
  }

  lemma LastOfSuffix(s: seq<int>, n: nat)
    ensures var h := LastOf(s, n); |h| == (if |s| < n then |s| else n) && h == s[|s| - |h|..]
  {
  }

  lemma LastOfShort(s: seq<int>, n: nat)
    requires |s| <= n
    ensures LastOf(s, n) == s
  {
  }

  lemma {:induction false} HistoryIsLast(eos: int, limit: nat, words: seq<int>)
    requires limit >= 1
    ensures HistoryAfter(eos, limit, words) == LastOf([eos] + words, limit)
  {
    hide LastOf;
    if words != [] {
      var n := |words| - 1;
      HistoryIsLast(eos, limit, words[..n]);
      assert [eos] + words == [eos] + words[..n] + [words[n]];
      LastOfSnoc([eos] + words[..n], limit, words[n]);
    } else {
      assert [eos] + words == [eos];
      LastOfShort([eos], limit);
    }
  }

  /** It is the end of the sentence, however often it was truncated on the way. */
  lemma HistoryIsSuffix(eos: int, limit: nat, words: seq<int>)
    requires limit >= 1
    ensures var s, h := [eos] + words, HistoryAfter(eos, limit, words);
      |h| == (if |s| < limit then |s| else limit) && h == s[|s| - |h|..]
  {
    hide LastOf, HistoryAfter;
    HistoryIsLast(eos, limit, words);
    LastOfSuffix([eos] + words, limit);
  }

  // ---- What the cache holds

  function Ids(states: seq<State>): (r: seq<int>)
    ensures |r| == |states| && forall i :: 0 <= i < |states| ==> r[i] == states[i].id
  {
    seq(|states|, i requires 0 <= i < |states| => states[i].id)
  }

  /** Row i belongs to the address of owners[i]: indices is a bijection. */
  ghost predicate Indexed(owners: seq<State>, indices: map<int, int>) {
    && |owners| == |indices|
    && (forall i :: 0 <= i < |owners| ==> owners[i].id in indices && indices[owners[i].id] == i)
    && (forall a :: a in indices ==> 0 <= indices[a] < |owners| && owners[indices[a]].id == a)
  }

  /** The first n rows are the network's answers for their owners' histories. */
  ghost predicate Filled(net: seq<int> -> seq<real>, owners: seq<State>, cache: seq<seq<real>>, n: nat) {
    n <= |owners| && n <= |cache| && forall i :: 0 <= i < n ==> cache[i] == net(owners[i].tokens)
  }

  ghost predicate Coherent(net: seq<int> -> seq<real>, owners: seq<State>, indices: map<int, int>,
                           cache: seq<seq<real>>) {
    Indexed(owners, indices) && Filled(net, owners, cache, |owners|)
  }

  lemma MapGrows(m: map<int, int>, a: int, v: int)
    requires a !in m
    ensures |m[a := v]| == |m| + 1
  {
    assert m[a := v].Keys == m.Keys + {a};
    assert |m.Keys + {a}| == |m.Keys| + 1;
  }

  lemma IndexedAdd(owners: seq<State>, indices: map<int, int>, s: State)
    requires Indexed(owners, indices) && s.id !in indices
    ensures Indexed(owners + [s], indices[s.id := |owners|])
  {
    MapGrows(indices, s.id, |owners|);
  }

  lemma CoherentAdd(net: seq<int> -> seq<real>, owners: seq<State>, indices: map<int, int>, cache: seq<seq<real>>,
                    s: State)
    requires Coherent(net, owners, indices, cache) && s.id !in indices && |owners| < |cache|
    ensures Coherent(net, owners + [s], indices[s.id := |owners|], cache[|owners| := net(s.tokens)])
  {
    IndexedAdd(owners, indices, s);
  }

  lemma CoherentNone(net: seq<int> -> seq<real>, cache: seq<seq<real>>)
    ensures Coherent(net, [], map[], cache)
  {
  }

  lemma CoherentHit(net: seq<int> -> seq<real>, owners: seq<State>, indices: map<int, int>, cache: seq<seq<real>>,
                    a: int)
    requires Coherent(net, owners, indices, cache)
    ensures a in Ids(owners) <==> a in indices
    ensures a in indices ==> var i := indices[a];
      0 <= i < |owners| && owners[i].id == a && cache[i] == net(owners[i].tokens)
  {
    if a in indices { assert Ids(owners)[indices[a]] == a; }
  }

  // ---- What a hit answers

  /** The history the answer is for: that of the cached owner of the address, if any. */
  ghost function Answered(owners: seq<State>, state: State): seq<int> {
    if owners == [] then state.tokens
    else if owners[|owners| - 1].id == state.id then owners[|owners| - 1].tokens
    else Answered(owners[..|owners| - 1], state)
  }

  lemma {:induction false} AnsweredBy(owners: seq<State>, indices: map<int, int>, state: State, n: nat)
    requires Indexed(owners, indices) && n <= |owners|
    ensures state.id in indices && indices[state.id] < n ==>
      Answered(owners[..n], state) == owners[indices[state.id]].tokens
    ensures state.id !in indices || indices[state.id] >= n ==> Answered(owners[..n], state) == state.tokens
  {
    if n > 0 {
      AnsweredBy(owners, indices, state, n - 1);
      assert owners[..n][..n - 1] == owners[..n - 1];
    }
  }

  /** Nothing cached under this address has another history. */
  ghost predicate Faithful(owners: seq<State>, state: State) {
    forall i :: 0 <= i < |owners| && owners[i].id == state.id ==> owners[i].tokens == state.tokens
  }

  lemma {:induction false} FaithfulAnswer(owners: seq<State>, state: State)
    requires Faithful(owners, state)
    ensures Answered(owners, state) == state.tokens
  {
    if owners != [] { FaithfulAnswer(owners[..|owners| - 1], state); }
  }

  /** The owners whose addresses are wanted, in order. */
  ghost function Wanted(owners: seq<State>, ids: seq<int>): seq<State> {
    if owners == [] then []
    else
      var n := |owners| - 1;
      if owners[n].id in ids then Wanted(owners[..n], ids) + [owners[n]] else Wanted(owners[..n], ids)
  }

  lemma WantedSnoc(owners: seq<State>, i: int, ids: seq<int>)
    requires 0 <= i < |owners|
    ensures Wanted(owners[..i + 1], ids)
      == if owners[i].id in ids then Wanted(owners[..i], ids) + [owners[i]] else Wanted(owners[..i], ids)
  {
    assert owners[..i + 1][..i] == owners[..i];
  }

  lemma {:induction false} WantedMember(owners: seq<State>, ids: seq<int>, s: State)
    ensures s in Wanted(owners, ids) <==> s in owners && s.id in ids
  {
    if owners != [] {
      var n := |owners| - 1;
      WantedMember(owners[..n], ids, s);
      assert owners == owners[..n] + [owners[n]];
    }
  }

  /** The owners after caching the states that are not cached yet, in order. */
  ghost function Join(owners: seq<State>, states: seq<State>): seq<State> {
    if states == [] then owners
    else
      var n := |states| - 1;
      var joined := Join(owners, states[..n]);
      if states[n].id in Ids(joined) then joined else joined + [states[n]]
  }

  ghost predicate Joined(owners: seq<State>, states: seq<State>, n: nat, joined: seq<State>) {
    n <= |states| && joined == Join(owners, states[..n])
  }

  lemma JoinNone(owners: seq<State>, states: seq<State>)
    ensures Joined(owners, states, 0, owners)
  {
  }

  lemma JoinAll(owners: seq<State>, states: seq<State>, joined: seq<State>)
    requires Joined(owners, states, |states|, joined)
    ensures joined == Join(owners, states)
  {
    assert states[..|states|] == states;
  }

  lemma JoinNext(owners: seq<State>, states: seq<State>, n: nat, joined: seq<State>, indices: map<int, int>)
    requires n < |states| && Joined(owners, states, n, joined) && Indexed(joined, indices)
    ensures Joined(owners, states, n + 1, if states[n].id in indices then joined else joined + [states[n]])
  {
    assert states[..n + 1][..n] == states[..n];
    IndexedIds(joined, indices, states[n].id);
  }

  lemma IndexedIds(owners: seq<State>, indices: map<int, int>, a: int)
    requires Indexed(owners, indices)
    ensures a in Ids(owners) <==> a in indices
  {
    if a in indices { assert Ids(owners)[indices[a]] == a; }
  }

  /** Nothing is added when all states are cached. */
  lemma {:induction false} JoinCached(owners: seq<State>, states: seq<State>)
    requires forall i :: 0 <= i < |states| ==> states[i].id in Ids(owners)
    ensures Join(owners, states) == owners
  {
    if states != [] { JoinCached(owners, states[..|states| - 1]); }
  }

  ghost function Marked(owners: seq<State>, ids: seq<int>, i: int): Option<int> {
    if 0 <= i < |owners| && owners[i].id in ids then Some(owners[i].id) else None
  }

  /** The longest history among the states that are not cached, -1 if all are. */
  ghost predicate IsLongest(indices: map<int, int>, states: seq<State>, longest: int) {
    && (forall i :: 0 <= i < |states| && states[i].id !in indices ==> |states[i].tokens| <= longest)
    && (longest == -1 || exists i :: 0 <= i < |states| && states[i].id !in indices && |states[i].tokens| == longest)
  }

  lemma LongestNext(indices: map<int, int>, states: seq<State>, k: int, longest: int, longest': int)
    requires 0 <= k < |states| && IsLongest(indices, states[..k], longest)
    requires longest'
      == if states[k].id !in indices && |states[k].tokens| > longest then |states[k].tokens| else longest
    ensures IsLongest(indices, states[..k + 1], longest')
  {
    var s := states[..k];
    assert states[..k + 1] == s + [states[k]];
    if longest' == longest && longest != -1 {
      var i :| 0 <= i < k && s[i].id !in indices && |s[i].tokens| == longest;
      assert states[..k + 1][i] == s[i];
    } else if longest' != longest {
      assert states[..k + 1][k] == states[k];
    }
  }

  // ---- Runs of calls

  datatype CacheSizes = CacheSizes(beamSize: nat, lmMemory: int, vocabSize: nat)

  /** A call on the language model. To finish a sentence is to query its end. */
  datatype Call = Begin | Query(state: State, tokenIdx: int) | Refresh(states: seq<State>)

  ghost function Queried(beamSize: nat, owners: seq<State>, state: State): seq<State> {
    if state.id in Ids(owners) then owners
    else if |owners| == beamSize then [state]
    else owners + [state]
  }

  /** No missing history exceeds the batch memory. */
  ghost predicate FitsMemory(owners: seq<State>, states: seq<State>, memory: int) {
    forall i :: 0 <= i < |states| && states[i].id !in Ids(owners) ==> |states[i].tokens| <= memory
  }

  ghost function Refreshed(sizes: CacheSizes, owners: seq<State>, states: seq<State>): seq<State> {
    if |states| > sizes.beamSize then owners
    else
      var kept := Wanted(owners, Ids(states));
      if FitsMemory(owners, states, sizes.lmMemory) then Join(kept, states) else kept
  }

  /** What is cached after a call. */
  ghost function After(sizes: CacheSizes, owners: seq<State>, call: Call): seq<State> {
    match call
    case Begin => []
    case Query(state, tokenIdx) =>
      if 0 <= tokenIdx < sizes.vocabSize then Queried(sizes.beamSize, owners, state) else owners
    case Refresh(states) => Refreshed(sizes, owners, states)
  }

  /** What is cached after a run of calls. */
  ghost function Run(sizes: CacheSizes, calls: seq<Call>): seq<State> {
    if calls == [] then [] else After(sizes, Run(sizes, calls[..|calls| - 1]), calls[|calls| - 1])
  }

  /** A valid query leaves its address cached, and a full cache never overflows. */
  lemma {:induction false} RunFits(sizes: CacheSizes, calls: seq<Call>)
    requires sizes.beamSize >= 1
    ensures |Run(sizes, calls)| <= sizes.beamSize
    ensures calls != [] && calls[|calls| - 1].Query? && 0 <= calls[|calls| - 1].tokenIdx < sizes.vocabSize ==>
      calls[|calls| - 1].state.id in Ids(Run(sizes, calls))
  {
    hide Wanted, Join, FitsMemory, Ids;
    if calls != [] {
      var n := |calls| - 1;
      RunFits(sizes, calls[..n]);
      var owners := Run(sizes, calls[..n]);
      match calls[n]
      case Begin =>
      case Query(state, _) => LastId(owners, state);
      case Refresh(states) =>
        RunApart(sizes, calls[..n]);
        RefreshedFits(sizes, owners, states);
    }
  }

  lemma LastId(owners: seq<State>, s: State)
    ensures s.id in Ids(owners + [s]) && s.id in Ids([s])
  {
    assert Ids(owners + [s])[|owners|] == s.id && Ids([s])[0] == s.id;
  }

  /** Different addresses, all among those of the states, are no more than the states. */
  lemma ApartFits(owners: seq<State>, states: seq<State>)
    requires Apart(owners) && forall s :: s in owners ==> s.id in Ids(states)
    ensures |owners| <= |states|
  {
    hide Apart, Ids;
    ApartSize(owners);
    forall a | a in SetOf(Ids(owners)) ensures a in SetOf(Ids(states)) {
      var i :| 0 <= i < |owners| && Ids(owners)[i] == a;
      assert owners[i] in owners;
    }
    SubsetSize(SetOf(Ids(owners)), SetOf(Ids(states)));
  }

  lemma {:induction false} ApartSize(owners: seq<State>)
    requires Apart(owners)
    ensures |SetOf(Ids(owners))| == |owners|
  {
    if owners != [] {
      var n := |owners| - 1;
      ApartSize(owners[..n]);
      var ids := Ids(owners);
      assert ids[..n] == Ids(owners[..n]);
      assert ids[n] !in ids[..n];
    }
  }

  lemma RefreshedFits(sizes: CacheSizes, owners: seq<State>, states: seq<State>)
    requires |owners| <= sizes.beamSize && Apart(owners)
    ensures |Refreshed(sizes, owners, states)| <= sizes.beamSize
  {
    hide Join, Wanted, FitsMemory, Ids, Apart;
    if |states| <= sizes.beamSize {
      var kept := Wanted(owners, Ids(states));
      WantedApart(owners, Ids(states));
      JoinApart(kept, states);
      forall s | s in kept ensures s.id in Ids(states) { WantedMember(owners, Ids(states), s); }
      ApartFits(kept, states);
      forall s | s in Join(kept, states) ensures s.id in Ids(states) {
        JoinMember(kept, states, s);
        if s in states {
          var i :| 0 <= i < |states| && states[i] == s;
          assert Ids(states)[i] == s.id;
        }
      }
      ApartFits(Join(kept, states), states);
    }
  }

  ghost predicate Apart(owners: seq<State>) {
    forall i, j :: 0 <= i < j < |owners| ==> owners[i].id != owners[j].id
  }

  lemma ApartAdd(owners: seq<State>, s: State)
    requires Apart(owners) && s.id !in Ids(owners)
    ensures Apart(owners + [s])
  {
    forall i | 0 <= i < |owners| ensures owners[i].id != s.id { assert Ids(owners)[i] == owners[i].id; }
  }

  lemma {:induction false} WantedApart(owners: seq<State>, ids: seq<int>)
    requires Apart(owners)
    ensures Apart(Wanted(owners, ids))
  {
    if owners != [] {
      var n := |owners| - 1;
      WantedApart(owners[..n], ids);
      var wanted := Wanted(owners[..n], ids);
      forall k | 0 <= k < |wanted| ensures wanted[k].id != owners[n].id {
        WantedMember(owners[..n], ids, wanted[k]);
      }
    }
  }

  lemma {:induction false} JoinApart(owners: seq<State>, states: seq<State>)
    requires Apart(owners)
    ensures Apart(Join(owners, states))
  {
    hide Apart;
    if states != [] {
      var n := |states| - 1;
      JoinApart(owners, states[..n]);
      var joined := Join(owners, states[..n]);
      if states[n].id !in Ids(joined) { ApartAdd(joined, states[n]); }
    }
  }

  /** Owners always have different addresses. */
  lemma {:induction false} RunApart(sizes: CacheSizes, calls: seq<Call>)
    ensures Apart(Run(sizes, calls))
  {
    hide Wanted, Join, FitsMemory;
    if calls != [] {
      var n := |calls| - 1;
      RunApart(sizes, calls[..n]);
      var owners := Run(sizes, calls[..n]);
      match calls[n]
      case Begin =>
      case Query(state, _) => if state.id !in Ids(owners) { ApartAdd(owners, state); }
      case Refresh(states) =>
        WantedApart(owners, Ids(states));
        JoinApart(Wanted(owners, Ids(states)), states);
    }
  }

  lemma {:induction false} JoinMember(owners: seq<State>, states: seq<State>, s: State)
    requires s in Join(owners, states)
    ensures s in owners || s in states
  {
    if states != [] {
      var n := |states| - 1;
      assert states == states[..n] + [states[n]];
      if s in Join(owners, states[..n]) { JoinMember(owners, states[..n], s); }
    }
  }

  // ---- When an answer is for the history asked about

  lemma {:induction false} AnsweredAt(owners: seq<State>, state: State, i: int)
    requires Apart(owners) && 0 <= i < |owners| && owners[i].id == state.id
    ensures Answered(owners, state) == owners[i].tokens
  {
    var n := |owners| - 1;
    if i < n {
      assert owners[..n][i].id == state.id;
      AnsweredAt(owners[..n], state, i);
    }
  }

  /** The answer is for the state's own history exactly when nothing cached under its
      address has another one. */
  lemma AnsweredExactly(owners: seq<State>, state: State)
    requires Apart(owners)
    ensures Answered(owners, state) == state.tokens <==> Faithful(owners, state)
  {
    if Answered(owners, state) == state.tokens {
      forall i | 0 <= i < |owners| && owners[i].id == state.id ensures owners[i].tokens == state.tokens {
        AnsweredAt(owners, state, i);
      }
    } else if Faithful(owners, state) {
      FaithfulAnswer(owners, state);
    }
  }

  ghost predicate IsNet(net: seq<int> -> seq<real>, vocabSize: nat) {
    forall h :: |net(h)| == vocabSize
  }

  /** The score given to a token is the network's for the state's own history. */
  ghost predicate IsOwnScore(net: seq<int> -> seq<real>, owners: seq<State>, state: State, t: nat) {
    |net(state.tokens)| == |net(Answered(owners, state))| > t
    && net(Answered(owners, state))[t] == net(state.tokens)[t]
  }

  /** A network that knows the history h from all others. */
  ghost function Telling(vocabSize: nat, h: seq<int>): seq<int> -> seq<real> {
    g => seq(vocabSize, _ => if g == h then 1.0 else 0.0)
  }

  /** So whatever the network, the score is its own for the state's history; and where
      something else is cached under the address, some network tells. */
  lemma OwnScoreExactly(vocabSize: nat, owners: seq<State>, state: State, t: nat)
    requires Apart(owners) && t < vocabSize
    ensures (forall net :: IsNet(net, vocabSize) ==> IsOwnScore(net, owners, state, t)) <==> Faithful(owners, state)
  {
    AnsweredExactly(owners, state);
    var net := Telling(vocabSize, state.tokens);
    assert IsNet(net, vocabSize);
    if !Faithful(owners, state) { assert !IsOwnScore(net, owners, state, t); }
  }

  /** All the states a call is given are in the pool. */
  ghost predicate Presents(call: Call, pool: iset<State>) {
    match call
    case Begin => true
    case Query(state, _) => state in pool
    case Refresh(states) => forall s :: s in states ==> s in pool
  }

  ghost predicate AllPresent(calls: seq<Call>, pool: iset<State>) {
    forall k :: 0 <= k < |calls| ==> Presents(calls[k], pool)
  }

  /** No two states of the pool share an address and differ in history. */
  ghost predicate NoReuse(pool: iset<State>) {
    forall x, y :: x in pool && y in pool && x.id == y.id ==> x.tokens == y.tokens
  }

  /** Every score of a run is the network's for the history asked about. */
  ghost predicate IsTransparent(sizes: CacheSizes, net: seq<int> -> seq<real>, calls: seq<Call>) {
    forall k :: 0 <= k < |calls| && calls[k].Query? && 0 <= calls[k].tokenIdx < sizes.vocabSize ==>
      IsOwnScore(net, Run(sizes, calls[..k]), calls[k].state, calls[k].tokenIdx)
  }

  /** Nothing else is cached under the address of any state when it is queried. */
  ghost predicate IsFaithful(sizes: CacheSizes, calls: seq<Call>) {
    forall k :: 0 <= k < |calls| && calls[k].Query? && 0 <= calls[k].tokenIdx < sizes.vocabSize ==>
      Faithful(Run(sizes, calls[..k]), calls[k].state)
  }

  lemma FaithfulRun(sizes: CacheSizes, net: seq<int> -> seq<real>, calls: seq<Call>)
    requires IsNet(net, sizes.vocabSize) && IsFaithful(sizes, calls)
    ensures IsTransparent(sizes, net, calls)
  {
    hide Run, Faithful, Answered;
    forall k | 0 <= k < |calls| && calls[k].Query? && 0 <= calls[k].tokenIdx < sizes.vocabSize
      ensures IsOwnScore(net, Run(sizes, calls[..k]), calls[k].state, calls[k].tokenIdx)
    {
      FaithfulAnswer(Run(sizes, calls[..k]), calls[k].state);
    }
  }

  /** A given run is transparent, whatever the network, exactly when it is faithful. */
  lemma RunExactly(sizes: CacheSizes, calls: seq<Call>)
    ensures (forall net :: IsNet(net, sizes.vocabSize) ==> IsTransparent(sizes, net, calls))
       <==> IsFaithful(sizes, calls)
  {
    hide Run, Faithful, IsOwnScore;
    if IsFaithful(sizes, calls) {
      forall net | IsNet(net, sizes.vocabSize) ensures IsTransparent(sizes, net, calls) {
        FaithfulRun(sizes, net, calls);
      }
    } else {
      var k :| 0 <= k < |calls| && calls[k].Query? && 0 <= calls[k].tokenIdx < sizes.vocabSize
        && !Faithful(Run(sizes, calls[..k]), calls[k].state);
      RunApart(sizes, calls[..k]);
      OwnScoreExactly(sizes.vocabSize, Run(sizes, calls[..k]), calls[k].state, calls[k].tokenIdx);
    }
  }

  ghost predicate FromPool(owners: seq<State>, pool: iset<State>) {
    forall s :: s in owners ==> s in pool
  }

  /** Only what was presented is cached. */
  lemma {:induction false} RunFromPool(sizes: CacheSizes, calls: seq<Call>, pool: iset<State>)
    requires AllPresent(calls, pool)
    ensures FromPool(Run(sizes, calls), pool)
  {
    hide Wanted, Join, FitsMemory;
    if calls != [] {
      var n := |calls| - 1;
      RunFromPool(sizes, calls[..n], pool);
      assert Presents(calls[n], pool);
      var owners := Run(sizes, calls[..n]);
      if calls[n].Refresh? {
        var states := calls[n].states;
        var kept := Wanted(owners, Ids(states));
        forall s ensures s in kept ==> s in owners { WantedMember(owners, Ids(states), s); }
        forall s | s in Join(kept, states) ensures s in owners || s in states { JoinMember(kept, states, s); }
      }
    }
  }

  lemma PoolAnswers(sizes: CacheSizes, net: seq<int> -> seq<real>, calls: seq<Call>, pool: iset<State>)
    requires NoReuse(pool) && IsNet(net, sizes.vocabSize)
    requires AllPresent(calls, pool)
    ensures IsTransparent(sizes, net, calls)
  {
    hide Run;
    forall k | 0 <= k < |calls| && calls[k].Query? && 0 <= calls[k].tokenIdx < sizes.vocabSize
      ensures Faithful(Run(sizes, calls[..k]), calls[k].state)
    {
      assert Presents(calls[k], pool);
      RunFromPool(sizes, calls[..k], pool);
    }
    FaithfulRun(sizes, net, calls);
  }

  /** Two queries at one address: the second is answered for the history of the first. */
  lemma StaleAnswer(sizes: CacheSizes, x: State, y: State, t: int)
    requires sizes.beamSize >= 1 && 0 <= t < sizes.vocabSize && x.id == y.id && x.tokens != y.tokens
    ensures Answered(Run(sizes, [Query(x, t)]), y) == x.tokens
    ensures IsNet(Telling(sizes.vocabSize, y.tokens), sizes.vocabSize)
    ensures !IsTransparent(sizes, Telling(sizes.vocabSize, y.tokens), [Query(x, t), Query(y, t)])
  {
    var calls := [Query(x, t), Query(y, t)];
    assert calls[..1] == [Query(x, t)];
    assert Run(sizes, calls[..1][..0]) == [];
    assert Run(sizes, calls[..1]) == [x];
    assert calls[1] == Query(y, t);
  }

  /** Every run of calls on states of a pool is transparent, whatever the network, if and
      only if no two of them share an address and differ in history. */
  lemma ReuseDecides(sizes: CacheSizes, pool: iset<State>)
    requires sizes.beamSize >= 1 && sizes.vocabSize >= 1
    ensures (forall net, calls :: IsNet(net, sizes.vocabSize) && AllPresent(calls, pool) ==>
              IsTransparent(sizes, net, calls))
       <==> NoReuse(pool)
  {
    hide IsTransparent;
    if NoReuse(pool) {
      forall net, calls | IsNet(net, sizes.vocabSize) && AllPresent(calls, pool)
        ensures IsTransparent(sizes, net, calls)
      {
        PoolAnswers(sizes, net, calls, pool);
      }
    } else {
      var x, y :| x in pool && y in pool && x.id == y.id && x.tokens != y.tokens;
      StaleAnswer(sizes, x, y, 0);
      var calls := [Query(x, 0), Query(y, 0)];
      assert AllPresent(calls, pool);
    }
  }

  class ConvLm {
    const net: seq<int> -> seq<real>   // scores of all tokens after a history
    const vocabSize: nat
    const eos: int
    const pad: int
    const lmMemory: int
    const beamSize: nat
    const maxHistorySize: nat
    var cacheIndices: map<int, int>   // by address
    var cache: seq<seq<real>>
    var batchedTokens: array<int>
    ghost var owners: seq<State>

    ghost predicate Sized()
      reads this
    {
      && beamSize >= 1 && maxHistorySize >= 1 && 0 <= eos < vocabSize && |cache| == beamSize
      && (forall h :: |net(h)| == vocabSize)
      && batchedTokens.Length == beamSize * maxHistorySize
    }

    ghost predicate Valid()
      reads this
    {
      Sized() && Coherent(net, owners, cacheIndices, cache)
    }

    function Sizes(): CacheSizes {
      CacheSizes(beamSize, lmMemory, vocabSize)
    }

    /** A history size below 1 is refused by the source. */
    constructor (net: seq<int> -> seq<real>, vocabSize: nat, eos: int, pad: int, lmMemory: int, beamSize: nat,
                 historySize: nat)
      requires beamSize >= 1 && historySize >= 1 && 0 <= eos < vocabSize && forall h :: |net(h)| == vocabSize
      ensures Valid() && owners == [] && fresh(batchedTokens)
    {
      this.net, this.vocabSize, this.eos, this.pad := net, vocabSize, eos, pad;
      this.lmMemory, this.beamSize, maxHistorySize := lmMemory, beamSize, historySize;
      cacheIndices, owners := map[], [];
      cache := seq(beamSize, _ => seq(vocabSize, _ => 0.0));
      batchedTokens := new int[beamSize * historySize];
    }

    method Start(id: int) returns (state: State)
      requires Valid()
      modifies this
      ensures Valid() && owners == After(Sizes(), old(owners), Begin)
      ensures state.tokens == HistoryAfter(eos, maxHistorySize, [])
    {
      hide Coherent;
      cacheIndices, owners := map[], [];
      CoherentNone(net, cache);
      state := State(id, [eos]);
    }

    /** The score is the network's for the history the address is answered for, hit or miss:
        the state's own, as long as nothing else was cached under its address. */
    method ScoreWithLmIdx(state: State, tokenIdx: int) returns (r: Outcome<(seq<int>, real)>)
      requires Valid() && 1 <= |state.tokens| <= maxHistorySize
      modifies `cacheIndices, `cache, `owners
      ensures Valid() && owners == After(Sizes(), old(owners), Query(state, tokenIdx))
      ensures 0 <= tokenIdx < vocabSize ==>
        r == Ok((LastOf(state.tokens + [tokenIdx], maxHistorySize), net(Answered(old(owners), state))[tokenIdx]))
      ensures 0 <= tokenIdx < vocabSize && Faithful(old(owners), state) ==>
        r == Ok((LastOf(state.tokens + [tokenIdx], maxHistorySize), net(state.tokens)[tokenIdx]))
      ensures !(0 <= tokenIdx < vocabSize) ==> r == Err(InvalidToken) && cacheIndices == old(cacheIndices)
    {
      hide Coherent, Answered, Faithful, Wanted, Join, FitsMemory;
      var out;
      if |state.tokens| == maxHistorySize {
        out := state.tokens[1..] + [tokenIdx];
      } else {
        out := state.tokens + [tokenIdx];
      }
      assert out == LastOf(state.tokens + [tokenIdx], maxHistorySize);
      if tokenIdx < 0 || tokenIdx >= vocabSize { return Err(InvalidToken); }
      CoherentHit(net, owners, cacheIndices, cache, state.id);
      CoherentSize(net, owners, cacheIndices, cache);
      CoherentAnswer(net, owners, cacheIndices, cache, state);
      if state.id in cacheIndices {
        return Ok((out, cache[cacheIndices[state.id]][tokenIdx]));
      }
      if |cacheIndices| == beamSize {
        cacheIndices, owners := map[], [];
        CoherentNone(net, cache);
      }
      CoherentAdd(net, owners, cacheIndices, cache, state);
      var newIdx := |cacheIndices|;
      CoherentSize(net, owners, cacheIndices, cache);
      cacheIndices, owners := cacheIndices[state.id := newIdx], owners + [state];
      cache := cache[newIdx := net(state.tokens)];
      r := Ok((out, cache[newIdx][tokenIdx]));
    }

    // ---- Refreshing the cache for the states of a beam

    method MarkSlots(states: seq<State>) returns (slot: seq<Option<int>>, longest: int)
      requires Valid()
      ensures |slot| == beamSize && IsLongest(cacheIndices, states, longest)
      ensures forall i :: 0 <= i < beamSize ==> slot[i] == Marked(owners, Ids(states), i)
    {
      hide Coherent, IsLongest, Ids;
      slot, longest := seq(beamSize, _ => None), -1;
      CoherentSize(net, owners, cacheIndices, cache);
      assert IsLongest(cacheIndices, states[..0], longest) by { LongestNone(cacheIndices, states[..0]); }
      for k := 0 to |states|
        invariant |slot| == beamSize && IsLongest(cacheIndices, states[..k], longest)
        invariant forall i :: 0 <= i < beamSize ==> slot[i] == Marked(owners, Ids(states[..k]), i)
      {
        ghost var longest0, slot0 := longest, slot;
        var a := states[k].id;
        CoherentHit(net, owners, cacheIndices, cache, a);
        if a in cacheIndices {
          slot := slot[cacheIndices[a] := Some(a)];
        } else if |states[k].tokens| > longest {
          longest := |states[k].tokens|;
        }
        LongestNext(cacheIndices, states, k, longest0, longest);
        assert Ids(states[..k + 1]) == Ids(states[..k]) + [a];
        forall i | 0 <= i < beamSize ensures slot[i] == Marked(owners, Ids(states[..k + 1]), i) {
          assert slot0[i] == Marked(owners, Ids(states[..k]), i);
          OwnerIndex(net, owners, cacheIndices, cache, i);
        }
      }
      assert states[..|states|] == states;
    }

    /** Rows still wanted move down; no row is overwritten before it has moved. */
    method Compact(slot: seq<Option<int>>, ghost ids: seq<int>)
      requires Valid() && |slot| == beamSize && forall i :: 0 <= i < beamSize ==> slot[i] == Marked(owners, ids, i)
      modifies `cacheIndices, `cache, `owners
      ensures Valid() && owners == Wanted(old(owners), ids)
    {
      hide Coherent, Wanted;
      ghost var owners0, indices0, cache0 := owners, cacheIndices, cache;
      CoherentSize(net, owners0, indices0, cache0);
      cacheIndices, owners := map[], [];
      CoherentNone(net, cache);
      WantedNone(owners0[..0], ids);
      for i := 0 to beamSize
        invariant |cache| == beamSize && Coherent(net, owners, cacheIndices, cache) && |owners| <= i
        invariant forall j :: i <= j < beamSize ==> cache[j] == cache0[j]
        invariant owners == Wanted(owners0[..if i < |owners0| then i else |owners0|], ids)
      {
        CoherentSize(net, owners, cacheIndices, cache);
        if i < |owners0| { WantedSnoc(owners0, i, ids); }
        if slot[i].Some? {
          ghost var s := owners0[i];
          OwnerIndex(net, owners0, indices0, cache0, i);
          NotYetWanted(net, owners0, indices0, cache0, i, ids);
          CoherentHit(net, owners, cacheIndices, cache, s.id);
          CoherentAdd(net, owners, cacheIndices, cache, s);
          var cacheSize := |cacheIndices|;
          cache := cache[cacheSize := cache[i]];
          cacheIndices, owners := cacheIndices[slot[i].value := cacheSize], owners + [s];
        }
      }
      assert owners0[..|owners0|] == owners0;
    }

    /** One row of the batch: a history padded to the longest. */
    method WriteRow(start: nat, tokens: seq<int>, longest: nat)
      requires |tokens| <= longest && start + longest <= batchedTokens.Length
      modifies batchedTokens
      ensures batchedTokens[start..start + |tokens|] == tokens
      ensures forall k :: start + |tokens| <= k < start + longest ==> batchedTokens[k] == pad
      ensures forall k :: 0 <= k < start ==> batchedTokens[k] == old(batchedTokens[k])
    {
      for j := 0 to |tokens|
        invariant forall k :: 0 <= k < j ==> batchedTokens[start + k] == tokens[k]
        invariant forall k :: 0 <= k < start ==> batchedTokens[k] == old(batchedTokens[k])
      {
        batchedTokens[start + j] := tokens[j];
      }
      assert batchedTokens[start..start + |tokens|] == tokens;
      for j := |tokens| to longest
        invariant batchedTokens[start..start + |tokens|] == tokens
        invariant forall k :: start + |tokens| <= k < start + j ==> batchedTokens[k] == pad
        invariant forall k :: 0 <= k < start ==> batchedTokens[k] == old(batchedTokens[k])
      {
        batchedTokens[start + j] := pad;
      }
    }

    /** The next batch: missing states from batchStart on, each given a row of the
        cache and a row of the batch. */
    method SelectBatch(states: seq<State>, batchStart: nat, maxBatchSize: int, longest: nat, ghost kept: seq<State>)
      returns (next: nat, lastTokenPositions: seq<int>, ghost batch: seq<State>)
      requires Sized() && Indexed(owners, cacheIndices) && batchStart < |states| <= beamSize && maxBatchSize <= |states|
      requires 1 <= longest <= maxHistorySize && Fitting(cacheIndices, states, longest)
      requires Within(cacheIndices, states) && Covered(cacheIndices, states, batchStart)
      requires Joined(kept, states, batchStart, owners)
      modifies `cacheIndices, `owners, batchedTokens
      ensures Indexed(owners, cacheIndices) && owners == old(owners) + batch
      ensures Joined(kept, states, next, owners)
      ensures Fitting(cacheIndices, states, longest) && Within(cacheIndices, states)
      ensures Covered(cacheIndices, states, next)
      ensures if maxBatchSize >= 1 then batchStart < next <= |states| else next == batchStart && batch == []
      ensures next < |states| ==> |lastTokenPositions| >= maxBatchSize
      ensures InBatch(batchedTokens[..], longest, lastTokenPositions, batch)
    {
      hide Indexed, Within, Covered, InBatch, Fitting, Joined;
      next, lastTokenPositions, batch := batchStart, [], [];
      InBatchNone(batchedTokens[..], longest);
      assert owners == old(owners) + batch;
      while |lastTokenPositions| < maxBatchSize && next < |states|
        invariant Sized() && batchStart <= next <= |states|
        invariant next == batchStart ==> lastTokenPositions == []
        invariant maxBatchSize < 1 ==> next == batchStart && batch == []
        invariant Indexed(owners, cacheIndices) && owners == old(owners) + batch
        invariant Joined(kept, states, next, owners)
        invariant Fitting(cacheIndices, states, longest) && Within(cacheIndices, states)
        invariant Covered(cacheIndices, states, next)
        invariant InBatch(batchedTokens[..], longest, lastTokenPositions, batch) && |lastTokenPositions| == |batch|
      {
        var state := states[next];
        JoinNext(kept, states, next, owners, cacheIndices);
        if state.id !in cacheIndices {
          AddToBatch(state, states, next, longest, lastTokenPositions, batch);
          assert old(owners) + batch + [state] == old(owners) + (batch + [state]);
          lastTokenPositions, batch := lastTokenPositions + [|state.tokens| - 1], batch + [state];
        } else {
          CoveredNext(cacheIndices, states, next);
        }
        next := next + 1;
      }
    }

    method AddToBatch(state: State, ghost states: seq<State>, ghost k: nat, longest: nat,
                      lastTokenPositions: seq<int>, ghost batch: seq<State>)
      requires Sized() && Indexed(owners, cacheIndices) && k < |states| <= beamSize && states[k] == state
      requires state.id !in cacheIndices
      requires longest <= maxHistorySize && Fitting(cacheIndices, states, longest) && |batch| < |states|
      requires Within(cacheIndices, states) && Covered(cacheIndices, states, k)
      requires InBatch(batchedTokens[..], longest, lastTokenPositions, batch) && |lastTokenPositions| == |batch|
      modifies `cacheIndices, `owners, batchedTokens
      ensures owners == old(owners) + [state] && Indexed(owners, cacheIndices)
      ensures Fitting(cacheIndices, states, longest) && Within(cacheIndices, states)
      ensures Covered(cacheIndices, states, k + 1)
      ensures InBatch(batchedTokens[..], longest, lastTokenPositions + [|state.tokens| - 1], batch + [state])
    {
      hide Indexed, InBatch, RowStart;
      IndexedSize(owners, cacheIndices);
      IndexedAdd(owners, cacheIndices, state);
      RowFits(|batch|, longest, beamSize, maxHistorySize);
      var start := RowStart(|lastTokenPositions|, longest);
      ghost var before := batchedTokens[..];
      WriteRow(start, state.tokens, longest);
      InBatchAdd(before, batchedTokens[..], longest, lastTokenPositions, batch, state);
      cacheIndices, owners := cacheIndices[state.id := |cacheIndices|], owners + [state];
    }

    /** The network on a batch: row b depends on the history in batch row b alone,
        not on its padding nor on the other rows. */
    method Forward(lastTokenPositions: seq<int>, sampleSize: nat, ghost batch: seq<State>)
      returns (probs: seq<seq<real>>)
      requires InBatch(batchedTokens[..], sampleSize, lastTokenPositions, batch)
      ensures |probs| == |batch| && forall b :: 0 <= b < |batch| ==> probs[b] == net(batch[b].tokens)
    {
      probs := [];
      for b := 0 to |lastTokenPositions|
        invariant |probs| == b && forall c :: 0 <= c < b ==> probs[c] == net(batch[c].tokens)
      {
        var start := RowStart(b, sampleSize);
        assert RowIs(batchedTokens[..], sampleSize, b, lastTokenPositions[b], batch[b]);
        var history := batchedTokens[start..start + lastTokenPositions[b] + 1];
        assert history == batchedTokens[..][start..start + lastTokenPositions[b] + 1];
        probs := probs + [net(history)];
      }
    }

    method PlaceRows(probs: seq<seq<real>>, n: nat)
      requires |cache| == beamSize && n + |probs| == |owners| <= beamSize && Filled(net, owners, cache, n)
      requires forall b :: 0 <= b < |probs| ==> probs[b] == net(owners[n + b].tokens)
      modifies `cache
      ensures |cache| == beamSize && Filled(net, owners, cache, |owners|)
    {
      for i := 0 to |probs|
        invariant |cache| == beamSize && Filled(net, owners, cache, n + i)
      {
        cache := cache[n + i := probs[i]];
      }
    }

    /** Afterwards exactly the given states are cached. It fails only when they are
        more than the cache holds, or a missing history exceeds the batch memory. */
    method UpdateCache(states: seq<State>) returns (r: Outcome<()>)
      requires Valid() && forall i :: 0 <= i < |states| ==> 1 <= |states[i].tokens| <= maxHistorySize
      modifies `cacheIndices, `cache, `owners, batchedTokens
      ensures Valid() && owners == After(Sizes(), old(owners), Refresh(states))
      ensures |states| > beamSize ==> r == Err(CacheTooSmall) && cacheIndices == old(cacheIndices)
      ensures r.Ok? <==> |states| <= beamSize && Fitting(old(cacheIndices), states, lmMemory)
      ensures r.Ok? ==> forall a :: a in cacheIndices <==> a in Ids(states)
    {
      hide Coherent, Indexed, Filled, InBatch, Wanted, IsLongest, Fitting, FitsMemory, Covered, Within, Join;
      if |states| > beamSize { return Err(CacheTooSmall); }
      ghost var owners0, indices0, cache0 := owners, cacheIndices, cache;
      var slot, longest := MarkSlots(states);
      Compact(slot, Ids(states));
      CompactKeys(net, owners0, indices0, cache0, owners, cacheIndices, cache, states);
      LongestMeans(indices0, cacheIndices, states, longest, lmMemory, maxHistorySize);
      FittingOwners(net, owners0, indices0, cache0, states, lmMemory);
      if longest <= 0 {
        AllCached(net, owners, cacheIndices, cache, states);
        return Ok(());
      }
      r := FillMissing(states, longest);
      if r.Ok? { ExactKeys(cacheIndices, states); }
    }

    /** Select a batch, run the network on it, place the rows. */
    method RunBatch(states: seq<State>, batchStart: nat, maxBatchSize: int, longest: nat, ghost kept: seq<State>)
      returns (next: nat, nBatchStates: nat)
      requires Valid() && batchStart < |states| <= beamSize && maxBatchSize <= |states|
      requires 1 <= longest <= maxHistorySize
      requires Fitting(cacheIndices, states, longest) && Within(cacheIndices, states)
      requires Covered(cacheIndices, states, batchStart) && Joined(kept, states, batchStart, owners)
      modifies `cacheIndices, `cache, `owners, batchedTokens
      ensures Valid() && Joined(kept, states, next, owners) && (maxBatchSize < 1 ==> owners == old(owners))
      ensures Fitting(cacheIndices, states, longest) && Within(cacheIndices, states)
      ensures Covered(cacheIndices, states, next)
      ensures if maxBatchSize >= 1 then batchStart < next <= |states| else next == batchStart && nBatchStates == 0
      ensures next < |states| ==> nBatchStates >= maxBatchSize
    {
      hide Coherent, Indexed, Filled, InBatch, Fitting, Covered, Within, Joined;
      var cacheSize := |cacheIndices|;
      CoherentParts(net, owners, cacheIndices, cache);
      IndexedSize(owners, cacheIndices);
      var lastTokenPositions; ghost var batch;
      next, lastTokenPositions, batch := SelectBatch(states, batchStart, maxBatchSize, longest, kept);
      nBatchStates := |lastTokenPositions|;
      InBatchSize(batchedTokens[..], longest, lastTokenPositions, batch);
      OwnersFit(owners, cacheIndices, states);
      FilledMore(net, owners[..cacheSize], owners, cache, cacheSize);
      if nBatchStates > 0 {
        var probs := Forward(lastTokenPositions, longest, batch);
        PlaceRows(probs, cacheSize);
      }
      CoherentWhole(net, owners, cacheIndices, cache);
    }

    method FillMissing(states: seq<State>, longest: nat) returns (r: Outcome<()>)
      requires Valid() && 0 < |states| <= beamSize && 1 <= longest <= maxHistorySize
      requires Fitting(cacheIndices, states, longest) && Within(cacheIndices, states)
      modifies `cacheIndices, `cache, `owners, batchedTokens
      ensures Valid() && Within(cacheIndices, states)
      ensures owners == if r.Ok? then Join(old(owners), states) else old(owners)
      ensures r.Ok? <==> lmMemory >= longest
      ensures r.Ok? ==> Covered(cacheIndices, states, |states|)
    {
      hide Coherent, Fitting, Covered, Within, Join, Joined;
      JoinNone(owners, states);
      var maxBatchSize := lmMemory / longest;
      BatchSize(lmMemory, longest);
      if maxBatchSize > |states| { maxBatchSize := |states|; }
      var batchStart := 0;
      CoveredNone(cacheIndices, states);
      while batchStart < |states|
        invariant Joined(old(owners), states, batchStart, owners) && (batchStart == 0 ==> owners == old(owners))
        invariant Valid() && batchStart <= |states| && (batchStart > 0 ==> maxBatchSize >= 1)
        invariant Fitting(cacheIndices, states, longest) && Within(cacheIndices, states)
        invariant Covered(cacheIndices, states, batchStart)
        decreases |states| - batchStart
      {
        var next, nBatchStates := RunBatch(states, batchStart, maxBatchSize, longest, old(owners));
        batchStart := next;
        if nBatchStates == 0 && batchStart >= |states| { break; }
        if nBatchStates < 1 { return Err(InvalidBatch); }
      }
      JoinAll(old(owners), states, owners);
      r := Ok(());
    }
  }

  lemma FittingOwners(net: seq<int> -> seq<real>, owners: seq<State>, indices: map<int, int>, cache: seq<seq<real>>,
                      states: seq<State>, memory: int)
    requires Coherent(net, owners, indices, cache)
    ensures Fitting(indices, states, memory) <==> FitsMemory(owners, states, memory)
  {
    hide Ids;
    forall i | 0 <= i < |states| ensures states[i].id in indices <==> states[i].id in Ids(owners) {
      IndexedIds(owners, indices, states[i].id);
    }
  }

  lemma AllCached(net: seq<int> -> seq<real>, owners: seq<State>, indices: map<int, int>, cache: seq<seq<real>>,
                  states: seq<State>)
    requires Coherent(net, owners, indices, cache) && forall a :: a in indices <==> a in Ids(states)
    ensures Join(owners, states) == owners
  {
    hide Ids;
    forall i | 0 <= i < |states| ensures states[i].id in Ids(owners) {
      assert Ids(states)[i] == states[i].id;
      IndexedIds(owners, indices, states[i].id);
    }
    JoinCached(owners, states);
  }

  lemma CompactKeys(net: seq<int> -> seq<real>, owners0: seq<State>, indices0: map<int, int>, cache0: seq<seq<real>>,
                    owners: seq<State>, indices: map<int, int>, cache: seq<seq<real>>, states: seq<State>)
    requires Coherent(net, owners0, indices0, cache0) && Coherent(net, owners, indices, cache)
    requires owners == Wanted(owners0, Ids(states))
    ensures forall a :: a in indices <==> a in indices0 && a in Ids(states)
    ensures Within(indices, states) && forall s :: s in owners ==> s in owners0
  {
    hide Wanted, Coherent, Ids;
    forall s ensures s in owners <==> s in owners0 && s.id in Ids(states) { WantedMember(owners0, Ids(states), s); }
    forall a ensures a in indices <==> a in indices0 && a in Ids(states) {
      CoherentHit(net, owners0, indices0, cache0, a);
      CoherentHit(net, owners, indices, cache, a);
      if a in indices0 { assert owners0[indices0[a]] in owners0; }
      if a in indices { assert owners[indices[a]] in owners; }
      IdAmong(owners0, a);
      IdAmong(owners, a);
    }
  }

  lemma IdAmong(states: seq<State>, a: int)
    ensures a in Ids(states) <==> exists i :: 0 <= i < |states| && states[i].id == a
  {
    if i :| 0 <= i < |states| && states[i].id == a { assert Ids(states)[i] == a; }
  }

  /** The longest missing history decides whether a batch fits the memory. */
  lemma LongestMeans(indices0: map<int, int>, indices: map<int, int>, states: seq<State>, longest: int, memory: int,
                     limit: nat)
    requires IsLongest(indices0, states, longest) && forall i :: 0 <= i < |states| ==> 1 <= |states[i].tokens| <= limit
    requires forall a :: a in indices <==> a in indices0 && a in Ids(states)
    ensures Fitting(indices, states, longest) && longest <= limit
    ensures longest <= 0 ==> Fitting(indices0, states, memory) && forall a :: a in indices <==> a in Ids(states)
    ensures longest > 0 ==> states != [] && (Fitting(indices0, states, memory) <==> memory >= longest)
  {
    hide Ids;
    forall i | 0 <= i < |states| ensures states[i].id in Ids(states) { assert Ids(states)[i] == states[i].id; }
    forall i | 0 <= i < |states| && states[i].id !in indices ensures |states[i].tokens| <= longest { }
    if longest <= 0 {
      forall a | a in Ids(states) ensures a in indices {
        IdAmong(states, a);
        var i :| 0 <= i < |states| && states[i].id == a;
      }
    }
  }

  lemma BatchSize(memory: int, longest: int)
    requires longest >= 1
    ensures memory / longest >= 1 <==> memory >= longest
  {
  }

  lemma CoveredNone(indices: map<int, int>, states: seq<State>)
    ensures Covered(indices, states, 0)
  {
  }

  lemma ExactKeys(indices: map<int, int>, states: seq<State>)
    requires Within(indices, states) && Covered(indices, states, |states|)
    ensures forall a :: a in indices <==> a in Ids(states)
  {
    forall a | a in Ids(states) ensures a in indices {
      IdAmong(states, a);
      var i :| 0 <= i < |states| && states[i].id == a;
    }
  }

  lemma InBatchSize(flat: seq<int>, n: nat, last: seq<int>, batch: seq<State>)
    requires InBatch(flat, n, last, batch)
    ensures |last| == |batch|
  {
  }

  lemma CoherentParts(net: seq<int> -> seq<real>, owners: seq<State>, indices: map<int, int>, cache: seq<seq<real>>)
    requires Coherent(net, owners, indices, cache)
    ensures Indexed(owners, indices) && Filled(net, owners, cache, |owners|)
  {
  }

  lemma CoherentWhole(net: seq<int> -> seq<real>, owners: seq<State>, indices: map<int, int>, cache: seq<seq<real>>)
    requires Indexed(owners, indices) && Filled(net, owners, cache, |owners|)
    ensures Coherent(net, owners, indices, cache)
  {
  }

  lemma FilledMore(net: seq<int> -> seq<real>, owners: seq<State>, owners': seq<State>, cache: seq<seq<real>>, n: nat)
    requires Filled(net, owners, cache, n) && owners <= owners'
    ensures Filled(net, owners', cache, n)
  {
  }

  function SetOf(ids: seq<int>): (r: set<int>)
    ensures forall a :: a in r <==> a in ids
    ensures |r| <= |ids|
  {
    if ids == [] then {}
    else
      var n := |ids| - 1;
      assert ids == ids[..n] + [ids[n]];
      SetOf(ids[..n]) + {ids[n]}
  }

  lemma SubsetSize(a: set<int>, b: set<int>)
    requires a <= b
    ensures |a| <= |b|
  {
    assert b == a + (b - a);
    assert |a + (b - a)| == |a| + |b - a|;
  }

  /** There are no more rows than wanted states. */
  lemma OwnersFit(owners: seq<State>, indices: map<int, int>, states: seq<State>)
    requires Indexed(owners, indices) && Within(indices, states)
    ensures |owners| <= |states|
  {
    forall a | a in indices.Keys ensures a in SetOf(Ids(states)) { }
    SubsetSize(indices.Keys, SetOf(Ids(states)));
  }

  /** Row b of a batch of rows of length n. */
  function RowStart(b: nat, n: nat): nat {
    b * n
  }

  lemma RowFits(b: nat, n: nat, rows: nat, size: nat)
    requires b < rows && n <= size
    ensures RowStart(b, n) + n <= rows * size
  {
    assert (b + 1) * n <= rows * n <= rows * size;
  }

  lemma RowsApart(b: nat, c: nat, n: nat)
    requires b < c
    ensures RowStart(b, n) + n <= RowStart(c, n)
  {
    assert (b + 1) * n <= c * n;
  }

  predicate RowIs(flat: seq<int>, n: nat, b: nat, last: int, s: State) {
    && last == |s.tokens| - 1 && |s.tokens| <= n && RowStart(b, n) + |s.tokens| <= |flat|
    && flat[RowStart(b, n)..RowStart(b, n) + |s.tokens|] == s.tokens
  }

  predicate InBatch(flat: seq<int>, n: nat, last: seq<int>, batch: seq<State>) {
    |last| == |batch| && forall b :: 0 <= b < |batch| ==> RowIs(flat, n, b, last[b], batch[b])
  }

  lemma InBatchNone(flat: seq<int>, n: nat)
    ensures InBatch(flat, n, [], [])
  {
  }

  lemma SamePrefix(a: seq<int>, b: seq<int>, n: nat, lo: nat, hi: nat)
    requires lo <= hi <= n <= |a| && n <= |b| && a[..n] == b[..n]
    ensures a[lo..hi] == b[lo..hi]
  {
    forall k | lo <= k < hi ensures a[k] == b[k] {
      assert a[..n][k] == b[..n][k];
    }
  }

  lemma InBatchAdd(flat: seq<int>, flat': seq<int>, n: nat, last: seq<int>, batch: seq<State>, s: State)
    requires InBatch(flat, n, last, batch) && |flat'| == |flat| && |s.tokens| <= n
    requires var start := RowStart(|batch|, n);
      start + |s.tokens| <= |flat| && flat'[start..start + |s.tokens|] == s.tokens && flat'[..start] == flat[..start]
    ensures InBatch(flat', n, last + [|s.tokens| - 1], batch + [s])
  {
    hide RowStart;
    var start := RowStart(|batch|, n);
    forall b | 0 <= b < |batch| ensures RowIs(flat', n, b, last[b], batch[b]) {
      assert RowIs(flat, n, b, last[b], batch[b]);
      RowsApart(b, |batch|, n);
      SamePrefix(flat, flat', start, RowStart(b, n), RowStart(b, n) + |batch[b].tokens|);
    }
  }

  /** Only wanted states are cached. */
  ghost predicate Within(indices: map<int, int>, states: seq<State>) {
    forall a :: a in indices ==> a in Ids(states)
  }

  ghost predicate Covered(indices: map<int, int>, states: seq<State>, n: nat) {
    n <= |states| && forall i :: 0 <= i < n ==> states[i].id in indices
  }

  lemma CoveredNext(indices: map<int, int>, states: seq<State>, n: nat)
    requires Covered(indices, states, n) && n < |states| && states[n].id in indices
    ensures Covered(indices, states, n + 1)
  {
  }

  /** Missing histories are at most that long. */
  predicate Fitting(indices: map<int, int>, states: seq<State>, longest: int) {
    forall i :: 0 <= i < |states| && states[i].id !in indices ==> |states[i].tokens| <= longest
  }

  lemma IndexedSize(owners: seq<State>, indices: map<int, int>)
    requires Indexed(owners, indices)
    ensures |owners| == |indices|
  {
  }

  lemma CoherentSize(net: seq<int> -> seq<real>, owners: seq<State>, indices: map<int, int>, cache: seq<seq<real>>)
    requires Coherent(net, owners, indices, cache)
    ensures |owners| == |indices| <= |cache|
  {
  }

  lemma OwnerIndex(net: seq<int> -> seq<real>, owners: seq<State>, indices: map<int, int>, cache: seq<seq<real>>,
                   i: int)
    requires Coherent(net, owners, indices, cache)
    ensures 0 <= i < |owners| ==>
      owners[i].id in indices && indices[owners[i].id] == i && cache[i] == net(owners[i].tokens)
  {
  }

  lemma LongestNone(indices: map<int, int>, states: seq<State>)
    requires states == []
    ensures IsLongest(indices, states, -1)
  {
  }

  lemma WantedNone(owners: seq<State>, ids: seq<int>)
    requires owners == []
    ensures Wanted(owners, ids) == []
  {
  }

  lemma CoherentAnswer(net: seq<int> -> seq<real>, owners: seq<State>, indices: map<int, int>, cache: seq<seq<real>>,
                       state: State)
    requires Coherent(net, owners, indices, cache)
    ensures state.id in indices ==> 0 <= indices[state.id] < |owners|
    ensures state.id in indices ==> Answered(owners, state) == owners[indices[state.id]].tokens
    ensures state.id !in indices ==> Answered(owners, state) == state.tokens
    ensures Faithful(owners, state) ==> Answered(owners, state) == state.tokens
  {
    AnsweredBy(owners, indices, state, |owners|);
    assert owners[..|owners|] == owners;
    if Faithful(owners, state) { FaithfulAnswer(owners, state); }
  }

  /** Owners have different addresses. */
  lemma NotYetWanted(net: seq<int> -> seq<real>, owners: seq<State>, indices: map<int, int>, cache: seq<seq<real>>,
                     i: int, ids: seq<int>)
    requires Coherent(net, owners, indices, cache) && 0 <= i < |owners|
    ensures owners[i].id !in Ids(Wanted(owners[..i], ids))
  {
    hide Wanted;
    var wanted := Wanted(owners[..i], ids);
    forall k | 0 <= k < |wanted| ensures wanted[k].id != owners[i].id {
      WantedMember(owners[..i], ids, wanted[k]);
      var j :| 0 <= j < i && owners[..i][j] == wanted[k];
      assert indices[owners[j].id] == j;
    }
  }
}
