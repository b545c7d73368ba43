/** Round-robin packing of samples into per-rank batches. */
module BatchPacker {
  import opened Division

  /** W ranks, batches of B samples per rank. */
  datatype Packer = Packer(W: nat, B: nat)

  predicate IsPacker(p: Packer) {
    p.W >= 1 && p.B >= 1
  }

  function PerGlobal(p: Packer): nat {
    p.W * p.B
  }

  lemma PerGlobalPositive(p: Packer)
    requires IsPacker(p)
    ensures PerGlobal(p) >= p.W >= 1
  {
    assert p.W * p.B >= p.W * 1;
  }

  /** The last, incomplete global batch is used when every rank gets a sample of it. */
  predicate IncludeLast(p: Packer, n: nat)
    requires IsPacker(p)
  {
    PerGlobalPositive(p);
    n % PerGlobal(p) >= p.W
  }

  function GlobalBatches(p: Packer, n: nat): nat
    requires IsPacker(p)
  {
    PerGlobalPositive(p);
    n / PerGlobal(p) + if IncludeLast(p, n) then 1 else 0
  }

  /** First sample and number of samples of rank r in global batch g. */
  function Start(p: Packer, n: nat, g: nat, r: int): int
    requires IsPacker(p)
  {
    var offset := g * PerGlobal(p);
    if IncludeLast(p, n) && g == GlobalBatches(p, n) - 1 then
      offset + (n - offset) / p.W * r + (if r < (n - offset) % p.W then r else (n - offset) % p.W)
    else offset + p.B * r
  }

  function Count(p: Packer, n: nat, g: nat, r: int): int
    requires IsPacker(p)
  {
    var offset := g * PerGlobal(p);
    if IncludeLast(p, n) && g == GlobalBatches(p, n) - 1 then
      (n - offset) / p.W + (if r < (n - offset) % p.W then 1 else 0)
    else p.B
  }

  /** Samples that some batch covers: all, except a remainder too small for every rank. */
  function Used(p: Packer, n: nat): nat
    requires IsPacker(p)
  {
    PerGlobalPositive(p);
    if IncludeLast(p, n) then n else n - n % PerGlobal(p)
  }

  /** Where global batch g ends. */
  function End(p: Packer, n: nat, g: nat): int
    requires IsPacker(p)
  {
    if IncludeLast(p, n) && g == GlobalBatches(p, n) - 1 then n else (g + 1) * PerGlobal(p)
  }

  // ---- Ranks share a global batch

  lemma Distribute(a: int, r: int)
    ensures a * (r + 1) == a * r + a
  {
  }

  /** Each rank starts where the one before ends. */
  lemma RankNext(p: Packer, n: nat, g: nat, r: nat)
    requires IsPacker(p)
    ensures Start(p, n, g, r + 1) == Start(p, n, g, r) + Count(p, n, g, r)
  {
    hide PerGlobal, IncludeLast, GlobalBatches;
    var size := n - g * PerGlobal(p);
    Distribute(size / p.W, r);
    Distribute(p.B, r);
  }

  lemma LastSize(p: Packer, n: nat)
    requires IsPacker(p) && IncludeLast(p, n)
    ensures var size := n - (GlobalBatches(p, n) - 1) * PerGlobal(p); p.W <= size < PerGlobal(p)
  {
    PerGlobalPositive(p);
    Divide(n, PerGlobal(p));
  }

  lemma RankEnds(p: Packer, n: nat, g: nat)
    requires IsPacker(p) && g < GlobalBatches(p, n)
    ensures Start(p, n, g, 0) == g * PerGlobal(p) && Start(p, n, g, p.W) == End(p, n, g)
  {
    var size := n - g * PerGlobal(p);
    if IncludeLast(p, n) && g == GlobalBatches(p, n) - 1 {
      LastSize(p, n);
      hide PerGlobal, IncludeLast, GlobalBatches;
      Divide(size, p.W);
      assert size % p.W < p.W;
    } else {
      assert (g + 1) * PerGlobal(p) == g * PerGlobal(p) + p.B * p.W;
    }
  }

  lemma CountPositive(p: Packer, n: nat, g: nat, r: nat)
    requires IsPacker(p) && g < GlobalBatches(p, n)
    ensures Count(p, n, g, r) >= 1
  {
    if IncludeLast(p, n) && g == GlobalBatches(p, n) - 1 {
      LastSize(p, n);
      hide PerGlobal, IncludeLast, GlobalBatches;
      var size := n - g * PerGlobal(p);
      Divide(size, p.W);
    }
  }

  lemma CountAtMost(p: Packer, n: nat, g: nat, r: nat)
    requires IsPacker(p) && g < GlobalBatches(p, n) && r < p.W
    ensures Count(p, n, g, r) <= p.B
  {
    if IncludeLast(p, n) && g == GlobalBatches(p, n) - 1 {
      LastSize(p, n);
      var size := n - g * PerGlobal(p);
      Divide(size, p.W);
      assert size < p.B * p.W;
      hide PerGlobal, IncludeLast, GlobalBatches;
      ShareAtMost(size / p.W, size % p.W, p.W, p.B);
    }
  }

  lemma ShareAtMost(q: int, rest: int, w: int, b: int)
    requires q * w + rest < b * w && rest >= 0 && w >= 1
    ensures q + 1 <= b
  {
    if q >= b { Product(b - 1, q, w); }
  }

  /** No batch is empty or larger than B, the ranks of one iteration differ by at most
      one sample. */
  lemma ShardSizes(p: Packer, n: nat, g: nat, r: nat, q: nat)
    requires IsPacker(p) && g < GlobalBatches(p, n) && r < p.W && q < p.W
    ensures 1 <= Count(p, n, g, r) <= p.B
    ensures -1 <= Count(p, n, g, r) - Count(p, n, g, q) <= 1
  {
    hide GlobalBatches, PerGlobal;
    CountPositive(p, n, g, r);
    CountAtMost(p, n, g, r);
  }

  /** Fewer than W samples are left out altogether, also when there is no global batch. */
  lemma FewLeftOut(p: Packer, n: nat)
    requires IsPacker(p)
    ensures 0 <= n - Used(p, n) < p.W
    ensures Used(p, n) == 0 <==> GlobalBatches(p, n) == 0
  {
    PerGlobalPositive(p);
    Divide(n, PerGlobal(p));
    hide PerGlobal;
    if n / PerGlobal(p) >= 1 { Product(0, n / PerGlobal(p), PerGlobal(p)); }
  }

  // ---- Every used sample is in exactly one batch of one rank

  predicate Has(p: Packer, n: nat, g: nat, r: nat, s: int)
    requires IsPacker(p)
  {
    Start(p, n, g, r) <= s < Start(p, n, g, r) + Count(p, n, g, r)
  }

  lemma {:induction false} StartsRise(p: Packer, n: nat, g: nat, r: nat, q: nat)
    requires IsPacker(p) && g < GlobalBatches(p, n) && r < q
    ensures Start(p, n, g, r) + Count(p, n, g, r) <= Start(p, n, g, q)
    decreases q
  {
    hide Start, Count, GlobalBatches;
    RankNext(p, n, g, q - 1);
    if r < q - 1 {
      StartsRise(p, n, g, r, q - 1);
      CountPositive(p, n, g, q - 1);
    }
  }

  lemma {:induction false} FindRank(p: Packer, n: nat, g: nat, w: nat, s: int) returns (r: nat)
    requires IsPacker(p) && w >= 1 && Start(p, n, g, 0) <= s < Start(p, n, g, w)
    ensures r < w && Has(p, n, g, r, s)
    decreases w
  {
    hide Start, Count, GlobalBatches;
    RankNext(p, n, g, w - 1);
    if Start(p, n, g, w - 1) <= s {
      r := w - 1;
    } else {
      r := FindRank(p, n, g, w - 1, s);
    }
  }

  /** The samples of global batch g are among its own PerGlobal(p) numbers. */
  lemma EndWithin(p: Packer, n: nat, g: nat)
    requires IsPacker(p) && g < GlobalBatches(p, n)
    ensures g * PerGlobal(p) < End(p, n, g) <= (g + 1) * PerGlobal(p) && End(p, n, g) <= Used(p, n)
  {
    PerGlobalPositive(p);
    Divide(n, PerGlobal(p));
    if IncludeLast(p, n) && g == GlobalBatches(p, n) - 1 {
      LastSize(p, n);
    } else {
      Product(g, n / PerGlobal(p), PerGlobal(p));
    }
  }

  lemma SampleIn(p: Packer, n: nat, g: nat, r: nat, s: int)
    requires IsPacker(p) && g < GlobalBatches(p, n) && r < p.W && Has(p, n, g, r, s)
    ensures g * PerGlobal(p) <= s < End(p, n, g) && s / PerGlobal(p) == g
  {
    PerGlobalPositive(p);
    hide PerGlobal, GlobalBatches, Start, Count, End;
    RankEnds(p, n, g);
    if r > 0 { StartsRise(p, n, g, 0, r); CountPositive(p, n, g, 0); }
    RankNext(p, n, g, r);
    if r + 1 < p.W { StartsRise(p, n, g, r, p.W); }
    EndWithin(p, n, g);
    Quotient(s, g, PerGlobal(p));
  }

  /** Over all global batches and ranks, each used sample is dealt exactly once. */
  lemma DealtOnce(p: Packer, n: nat, s: nat) returns (g: nat, r: nat)
    requires IsPacker(p) && s < Used(p, n)
    ensures g < GlobalBatches(p, n) && r < p.W && Has(p, n, g, r, s)
    ensures forall h: nat, q: nat :: h < GlobalBatches(p, n) && q < p.W && Has(p, n, h, q, s) ==> h == g && q == r
  {
    g := FindGlobal(p, n, s);
    hide PerGlobal, GlobalBatches, Start, Count, End, Used, IncludeLast;
    RankEnds(p, n, g);
    r := FindRank(p, n, g, p.W, s);
    forall h: nat, q: nat | h < GlobalBatches(p, n) && q < p.W && Has(p, n, h, q, s) ensures h == g && q == r {
      SampleIn(p, n, h, q, s);
      SampleIn(p, n, g, r, s);
      if q < r { StartsRise(p, n, g, q, r); } else if r < q { StartsRise(p, n, g, r, q); }
    }
  }

  lemma FindGlobal(p: Packer, n: nat, s: nat) returns (g: nat)
    requires IsPacker(p) && s < Used(p, n)
    ensures g < GlobalBatches(p, n) && g * PerGlobal(p) <= s < End(p, n, g)
  {
    hide PerGlobal;
    PerGlobalPositive(p);
    var k := PerGlobal(p);
    g := s / k;
    Divide(s, k);
    Divide(n, k);
    Distribute(k, g);
    if g > n / k { Product(n / k, g, k); }
    if g == n / k { assert s >= n / k * k; }
  }

  /** And no batch holds a sample that is not one. */
  lemma DealtAreSamples(p: Packer, n: nat, g: nat, r: nat, s: int)
    requires IsPacker(p) && g < GlobalBatches(p, n) && r < p.W && Has(p, n, g, r, s)
    ensures 0 <= s < Used(p, n) <= n
  {
    SampleIn(p, n, g, r, s);
    EndWithin(p, n, g);
  }

  // ---- The code

  predicate IsShuffle(order: seq<int>, n: nat) {
    && |order| == n && (forall i :: 0 <= i < n ==> 0 <= order[i] < n)
    && (forall i, j :: 0 <= i < j < n ==> order[i] != order[j])
  }

  /** Batches of a rank, in the order the global batches were shuffled into. */
  method GetBatches(p: Packer, n: nat, rank: nat, order: seq<int>) returns (batches: seq<seq<int>>)
    requires IsPacker(p) && rank < p.W && IsShuffle(order, GlobalBatches(p, n))
    ensures |batches| == GlobalBatches(p, n)
    ensures forall i :: 0 <= i < |batches| ==> IsBatch(p, n, order[i], rank, batches[i])
  {
    hide Start, Count;
    batches := [];
    for i := 0 to |order|
      invariant |batches| == i && forall j :: 0 <= j < i ==> IsBatch(p, n, order[j], rank, batches[j])
    {
      var offset, count := Shard(p, n, order[i], rank);
      CountPositive(p, n, order[i], rank);
      batches := batches + [seq(count, j requires 0 <= j < count => offset + j)];
    }
  }

  /** The consecutive samples of rank r in global batch g. */
  predicate IsBatch(p: Packer, n: nat, g: nat, r: nat, batch: seq<int>)
    requires IsPacker(p)
  {
    |batch| == Count(p, n, g, r) && forall j :: 0 <= j < |batch| ==> batch[j] == Start(p, n, g, r) + j
  }

  /** Taken rank by rank and global batch by global batch, each batch goes on where the one
      before ends; within a global batch they do not grow. */
  lemma BatchFollows(p: Packer, n: nat, g: nat, r: nat, a: seq<int>, b: seq<int>)
    requires IsPacker(p) && g < GlobalBatches(p, n) && r < p.W && IsBatch(p, n, g, r, a)
    requires if r + 1 < p.W then IsBatch(p, n, g, r + 1, b)
      else g + 1 < GlobalBatches(p, n) && IsBatch(p, n, g + 1, 0, b)
    ensures a != [] && b != [] && b[0] == a[|a| - 1] + 1 && (r + 1 < p.W ==> |b| <= |a|)
  {
    hide PerGlobal, GlobalBatches, Start, Count, End, Used, IsBatch;
    BatchEnds(p, n, g, r, a);
    RankNext(p, n, g, r);
    if r + 1 < p.W {
      CountFalls(p, n, g, r);
      BatchEnds(p, n, g, r + 1, b);
    } else {
      assert r + 1 == p.W;
      GlobalNext(p, n, g);
      BatchEnds(p, n, g + 1, 0, b);
    }
  }

  /** The first batch starts with sample 0, the last ends with the last used one, and all but
      those of the last global batch are full. So the batches tile the used samples. */
  lemma BatchesTile(p: Packer, n: nat, g: nat, r: nat, a: seq<int>)
    requires IsPacker(p) && g < GlobalBatches(p, n) && r < p.W && IsBatch(p, n, g, r, a)
    ensures a != [] && (g == 0 && r == 0 ==> a[0] == 0) && (g + 1 < GlobalBatches(p, n) ==> |a| == p.B)
    ensures g + 1 == GlobalBatches(p, n) && r + 1 == p.W ==> a[|a| - 1] + 1 == Used(p, n)
  {
    hide PerGlobal, GlobalBatches, Start, Count, End, Used, IsBatch;
    BatchEnds(p, n, g, r, a);
    CountFalls(p, n, g, r);
    if g == 0 { FirstStart(p, n); }
    if r + 1 == p.W {
      RankNext(p, n, g, r);
      GlobalNext(p, n, g);
    }
  }

  lemma BatchEnds(p: Packer, n: nat, g: nat, r: nat, a: seq<int>)
    requires IsPacker(p) && g < GlobalBatches(p, n) && IsBatch(p, n, g, r, a)
    ensures a != [] && |a| == Count(p, n, g, r) && a[0] == Start(p, n, g, r)
    ensures a[|a| - 1] + 1 == Start(p, n, g, r) + Count(p, n, g, r)
  {
    hide Start, Count;
    CountPositive(p, n, g, r);
  }

  lemma FirstStart(p: Packer, n: nat)
    requires IsPacker(p) && 0 < GlobalBatches(p, n)
    ensures Start(p, n, 0, 0) == 0
  {
    hide Start;
    RankEnds(p, n, 0);
  }

  /** Each global batch starts where the one before ends, the last ends the used samples. */
  lemma GlobalNext(p: Packer, n: nat, g: nat)
    requires IsPacker(p) && g < GlobalBatches(p, n)
    ensures Start(p, n, g, p.W) == if g + 1 < GlobalBatches(p, n) then Start(p, n, g + 1, 0) else Used(p, n)
  {
    hide Start, End, Used, PerGlobal, GlobalBatches;
    RankEnds(p, n, g);
    LastEnds(p, n, g);
    if g + 1 < GlobalBatches(p, n) { RankEnds(p, n, g + 1); }
  }

  lemma CountFalls(p: Packer, n: nat, g: nat, r: nat)
    requires IsPacker(p)
    ensures Count(p, n, g, r + 1) <= Count(p, n, g, r)
    ensures g + 1 < GlobalBatches(p, n) ==> Count(p, n, g, r) == p.B
  {
    hide PerGlobal, IncludeLast;
  }

  lemma LastEnds(p: Packer, n: nat, g: nat)
    requires IsPacker(p) && g < GlobalBatches(p, n)
    ensures End(p, n, g) == if g + 1 < GlobalBatches(p, n) then (g + 1) * PerGlobal(p) else Used(p, n)
  {
    PerGlobalPositive(p);
    Divide(n, PerGlobal(p));
  }

  method Shard(p: Packer, n: nat, g: nat, r: nat) returns (offset: int, count: int)
    requires IsPacker(p) && g < GlobalBatches(p, n)
    ensures offset == Start(p, n, g, r) && count == Count(p, n, g, r)
  {
    offset := g * PerGlobal(p);
    if IncludeLast(p, n) && g == GlobalBatches(p, n) - 1 {
      count := (n - offset) / p.W;
      var remaining := (n - offset) % p.W;
      offset := offset + count * r;
      if r < remaining { count := count + 1; }
      offset := offset + if r < remaining then r else remaining;
    } else {
      offset := offset + p.B * r;
      count := p.B;
    }
  }

  /** The global batch is recovered from the first sample of a rank's batch. */
  lemma GlobalBatchIdx(p: Packer, n: nat, g: nat, rank: nat, batch: seq<int>)
    requires IsPacker(p) && g < GlobalBatches(p, n) && rank < p.W && IsBatch(p, n, g, rank, batch)
    ensures batch != [] && batch[0] / PerGlobal(p) == g
  {
    hide Start, Count, GlobalBatches;
    PerGlobalPositive(p);
    CountPositive(p, n, g, rank);
    SampleIn(p, n, g, rank, batch[0]);
  }
}
