/** Log/PerfCounter.h: the counters of one hash table. */
module PerfCounter {
  datatype HashTablePerfCounter =
    | RecordsCount
    | BucketsCount
    | TotalKeySize
    | TotalValueSize
    | TotalIndexSize
    | ChainingEntriesCount
    | MinKeySize
    | MaxKeySize
    | MinValueSize
    | MaxValueSize
    | MaxBucketChainLength
    | RecordsCountLoadedFromSerializer
    | RecordsCountSavedFromSerializer
    | CacheHitCount
    | CacheMissCount
    | EvictedRecordsCount

  type Counters = map<HashTablePerfCounter, int>

  const INT64_MAX: int := 0x7FFF_FFFF_FFFF_FFFF

  ghost predicate Complete(c: Counters) {
    forall k: HashTablePerfCounter :: k in c
  }

  /** The constructor: all zero, except that the minima start at the largest value and that a bucket
      already contains one entry. */
  function InitialCounters(): Counters {
    map[
      RecordsCount := 0, BucketsCount := 0, TotalKeySize := 0, TotalValueSize := 0, TotalIndexSize := 0,
      ChainingEntriesCount := 0, MinKeySize := INT64_MAX, MaxKeySize := 0, MinValueSize := INT64_MAX,
      MaxValueSize := 0, MaxBucketChainLength := 1, RecordsCountLoadedFromSerializer := 0,
      RecordsCountSavedFromSerializer := 0, CacheHitCount := 0, CacheMissCount := 0, EvictedRecordsCount := 0]
  }

  lemma InitialIsComplete()
    ensures Complete(InitialCounters())
    ensures forall k :: k in InitialCounters() ==>
      InitialCounters()[k]
      == if k == MinKeySize || k == MinValueSize then 0x7FFF_FFFF_FFFF_FFFF
         else if k == MaxBucketChainLength then 1 else 0
  {
    forall k: HashTablePerfCounter ensures k in InitialCounters() {
      match k {
        case RecordsCount =>
        case BucketsCount =>
        case TotalKeySize =>
        case TotalValueSize =>
        case TotalIndexSize =>
        case ChainingEntriesCount =>
        case MinKeySize =>
        case MaxKeySize =>
        case MinValueSize =>
        case MaxValueSize =>
        case MaxBucketChainLength =>
        case RecordsCountLoadedFromSerializer =>
        case RecordsCountSavedFromSerializer =>
        case CacheHitCount =>
        case CacheMissCount =>
        case EvictedRecordsCount =>
      }
    }
  }

  class HashTablePerfData {
    var counters: Counters

    constructor ()
      ensures counters == InitialCounters() && Complete(counters)
      ensures forall k :: k in counters ==>
        counters[k]
        == if k == MinKeySize || k == MinValueSize then 0x7FFF_FFFF_FFFF_FFFF
           else if k == MaxBucketChainLength then 1 else 0
    {
      counters := InitialCounters();
      InitialIsComplete();
    }

    method Get(k: HashTablePerfCounter) returns (value: int)
      requires Complete(counters)
      ensures value == counters[k]
    {
      value := counters[k];
    }

    method Set(k: HashTablePerfCounter, value: int)
      requires Complete(counters)
      modifies this
      ensures Complete(counters) && counters == old(counters)[k := value]
    {
      counters := counters[k := value];
    }

    method Add(k: HashTablePerfCounter, value: int)
      requires Complete(counters)
      modifies this
      ensures Complete(counters) && counters == old(counters)[k := old(counters)[k] + value]
    {
      if value != 0 {
        counters := counters[k := counters[k] + value];
      } else {
        assert counters == counters[k := counters[k]];
      }
    }

    method Subtract(k: HashTablePerfCounter, value: int)
      requires Complete(counters)
      modifies this
      ensures Complete(counters) && counters == old(counters)[k := old(counters)[k] - value]
    {
      if value != 0 {
        counters := counters[k := counters[k] - value];
      } else {
        assert counters == counters[k := counters[k]];
      }
    }

    method Increment(k: HashTablePerfCounter)
      requires Complete(counters)
      modifies this
      ensures Complete(counters) && counters == old(counters)[k := old(counters)[k] + 1]
    {
      counters := counters[k := counters[k] + 1];
    }

    method Decrement(k: HashTablePerfCounter)
      requires Complete(counters)
      modifies this
      ensures Complete(counters) && counters == old(counters)[k := old(counters)[k] - 1]
    {
      counters := counters[k := counters[k] - 1];
    }

    /** The compare-exchange cannot fail when only one thread updates the counter. */
    method Max(k: HashTablePerfCounter, value: int)
      requires Complete(counters)
      modifies this
      ensures Complete(counters)
      ensures counters == old(counters)[k := if old(counters)[k] > value then old(counters)[k] else value]
    {
      if counters[k] > value {
        assert counters == counters[k := counters[k]];
        return;
      }
      counters := counters[k := value];
    }

    method Min(k: HashTablePerfCounter, value: int)
      requires Complete(counters)
      modifies this
      ensures Complete(counters)
      ensures counters == old(counters)[k := if old(counters)[k] < value then old(counters)[k] else value]
    {
      if counters[k] < value {
        assert counters == counters[k := counters[k]];
        return;
      }
      counters := counters[k := value];
    }
  }
}
