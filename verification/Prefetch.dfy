/** The dataset's prefetch cache. Worker threads fill entries at any time; the steps
    of the dataset and of the workers interleave as whole steps. */
module Prefetch {

  /** A future: not computed yet, or its value. */
  datatype Entry<T> = Pending | Ready(value: T)

  class Dataset<Batch, Features> {
    const featurize: Batch -> Features
    const nThreads: nat
    var batches: seq<Batch>
    var cache: map<int, Entry<Features>>

    constructor (featurize: Batch -> Features, nThreads: nat, batches: seq<Batch>)
      ensures Valid() && this.batches == batches && this.featurize == featurize && this.nThreads == nThreads
    {
      this.featurize, this.nThreads, this.batches, cache := featurize, nThreads, batches, map[];
    }

    /** Entries stand for existing batches, and computed ones hold the features of
        the batches as they are now. */
    ghost predicate Valid()
      reads this
    {
      forall i :: i in cache ==> 0 <= i < |batches| && (cache[i].Ready? ==> cache[i].value == featurize(batches[i]))
    }

    /** A worker finishes some prefetch that still has an entry. */
    method WorkerStep(i: int)
      requires Valid()
      modifies `cache
      ensures Valid()
      ensures cache == if i in old(cache) then old(cache)[i := Ready(featurize(batches[i]))] else old(cache)
    {
      if i in cache && cache[i].Pending? { cache := cache[i := Ready(featurize(batches[i]))]; }
    }

    /** A batch is served with the features of its current contents, cached or not;
        afterwards exactly the next nThreads batches are cached, those that were with what
        they had. */
    method Get(idx: int) returns (features: Features)
      requires Valid() && 0 <= idx < |batches|
      modifies `cache
      ensures Valid() && features == featurize(batches[idx])
      ensures nThreads > 0 ==> forall i :: i in cache <==> idx < i <= idx + nThreads && i < |batches|
      ensures nThreads == 0 ==> cache == old(cache)
      ensures forall i :: i in cache ==> cache[i] == if i in old(cache) then old(cache)[i] else Pending
    {
      if nThreads == 0 { return featurize(batches[idx]); }
      if idx in cache {
        // waits for the worker when the entry is pending
        features := if cache[idx].Ready? then cache[idx].value else featurize(batches[idx]);
        cache := cache - {idx};
      } else {
        features := featurize(batches[idx]);
      }
      cache := map i | i in cache && !(i < idx || i > idx + nThreads) :: cache[i];
      assert forall i :: i in cache <==> i in old(cache) && idx < i <= idx + nThreads;
      Enqueue(idx);
    }

    /** The batches after idx that have no entry get one. */
    method Enqueue(idx: int)
      requires Valid() && 0 <= idx < |batches| && forall i :: i in cache ==> idx < i <= idx + nThreads
      modifies `cache
      ensures Valid() && forall i :: i in cache <==> idx < i <= idx + nThreads && i < |batches|
      ensures forall i :: i in cache ==> cache[i] == if i in old(cache) then old(cache)[i] else Pending
    {
      var end := if idx + 1 + nThreads < |batches| then idx + 1 + nThreads else |batches|;
      for i := idx + 1 to end
        invariant forall j :: j in cache <==> j in old(cache) || idx < j < i
        invariant forall j :: j in cache ==> cache[j] == if j in old(cache) then old(cache)[j] else Pending
      {
        if i !in cache { cache := cache[i := Pending]; }
      }
    }

    /** New batches, and no entry survives. */
    method Shuffle(newBatches: seq<Batch>)
      modifies `cache, `batches
      ensures Valid() && batches == newBatches && cache == map[]
    {
      cache := map[];
      batches := newBatches;
    }
  }
}
