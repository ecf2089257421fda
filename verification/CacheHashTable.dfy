/** HashTable/Cache/HashTable.h: the read-write table with metadata in front of each value, which
    limits its size and the age of its records. One thread at a time; each reading of the clock is
    a parameter. */
module CacheTable {
  import opened Wrappers
  import opened BucketChain
  import opened PerfCounter
  import opened Accounting
  import opened RecordCodec
  import opened SharedTable
  import opened ReadWriteTable
  import opened CacheMetadata
  import opened ClockSweep
  import opened TableListing
  import opened TableRuns

  /** A value as given to Add, and the time of that call. */
  datatype Stamped = Stamped(value: Blob, time: nat)

  /** What the table stores of a key is what the latest Add of the key has put there. */
  ghost predicate Sound(m: map<Blob, Blob>, latest: map<Blob, Stamped>) {
    forall key :: key in m ==>
      && key in latest && |m[key]| >= META_SIZE
      && m[key][META_SIZE..] == latest[key].value && EpochTime(m[key]) == latest[key].time % TIMES
  }

  /** The size that is compared with the limit. */
  function TotalDataSize(k: Counters): int
    requires forall c: HashTablePerfCounter :: c in k
  {
    k[TotalKeySize] + k[TotalValueSize] + k[TotalIndexSize]
  }

  /** Table u has the chains of t and no more bytes and records. */
  ghost predicate Shrunk(t: Table, u: Table) {
    && |u| == |t| && LinkedEntries(u) == LinkedEntries(t)
    && Total(Records, u) <= Total(Records, t)
    && 0 <= Total(CountedBytes, t) - Total(CountedBytes, u) <= DataBytes(t) - DataBytes(u)
    && (DataBytes(u) < DataBytes(t) ==> Total(Records, u) < Total(Records, t))
  }

  ghost predicate SameTotals(t: Table, u: Table) {
    && |u| == |t| && LinkedEntries(u) == LinkedEntries(t) && Total(Records, u) == Total(Records, t)
    && Total(CountedBytes, u) == Total(CountedBytes, t) && DataBytes(u) == DataBytes(t)
  }

  /** Evicted records and stored records add up to the same number. */
  ghost predicate EvictionsCounted(t: Table, k: Counters, u: Table, j: Counters)
    requires Complete(k) && Complete(j)
  {
    j[EvictedRecordsCount] + Total(Records, u) == k[EvictedRecordsCount] + Total(Records, t)
  }

  /** What the bookkeeping of an eviction says about the step from t to u. */
  ghost predicate Freed(t: Table, k: Counters, u: Table, j: Counters, wanted: nat, left: nat) {
    && Complete(k) && Complete(j)
    && Shrunk(t, u) && EvictionsCounted(t, k, u, j)
    && left == LeftToFree(wanted, Total(CountedBytes, t) - Total(CountedBytes, u))
  }

  lemma NothingFreed(t: Table, k: Counters, wanted: nat)
    requires Complete(k)
    ensures Freed(t, k, t, k, wanted, wanted)
  {
  }

  lemma ShrunkOf(t: Table, k: Counters, u: Table, j: Counters, wanted: nat, left: nat)
    requires Freed(t, k, u, j, wanted, left)
    ensures Shrunk(t, u) && Complete(k) && Complete(j)
  {
  }

  lemma FreedThen(t: Table, k: Counters, u: Table, j: Counters, v: Table, l: Counters, wanted: nat, left: nat,
                  rest: nat)
    requires Freed(t, k, u, j, wanted, left) && Freed(u, j, v, l, left, rest)
    ensures Freed(t, k, v, l, wanted, rest)
  {
  }

  // ----- accounting -----

  lemma ExactIgnores(k: Counters, t: Table, z: Sizes, c: HashTablePerfCounter, n: int)
    requires Exact(k, t, z) && c in {EvictedRecordsCount, CacheHitCount, CacheMissCount}
    ensures Exact(k[c := n], t, z)
  {
  }

  /** A record can be exchanged for one of the same sizes. */
  lemma SameSizesKeepExact(k: Counters, t: Table, z: Sizes, b: nat, p: Pos, r: Record, tag: byte)
    requires b < |t| && InChain(t[b], p) && DataAt(t[b], p).Some? && Exact(k, t, z)
    requires |DataAt(t[b], p).value.key| == |r.key| && |DataAt(t[b], p).value.value| == |r.value|
    ensures var u := t[b := SetSlot(t[b], p, Some(r), tag)];
      Exact(k, u, z) && SameTotals(t, u)
  {
    var c := SetSlot(t[b], p, Some(r), tag);
    forall m: Measure ensures Total(m, t[b := c]) == Total(m, t) {
      TotalUpdate(m, t, b, c);
      SetSlotTotal(m, t[b], p, Some(r), tag);
    }
    LinkedEntriesUpdate(t, b, c);
    LongestChainUpdate(t, b, c);
    LongestIsLongest(t, b);
  }

  lemma RemovalShrinks(t: Table, b: nat, p: Pos)
    requires b < |t| && InChain(t[b], p) && DataAt(t[b], p).Some?
    ensures var u, r := t[b := Removed(t[b], p)], DataAt(t[b], p).value;
      && Shrunk(t, u) && Total(Records, u) == Total(Records, t) - 1
      && DataBytes(u) == DataBytes(t) - |r.key| - |r.value|
      && Total(CountedBytes, u) == Total(CountedBytes, t) - (|r.key| + |r.value|) % U32
  {
    RemovedTotal(Records, t, b, p);
    RemovedTotal(KeyBytes, t, b, p);
    RemovedTotal(ValueBytes, t, b, p);
    RemovedTotal(CountedBytes, t, b, p);
    LinkedEntriesUpdate(t, b, Removed(t[b], p));
    hide Removed, Total, LinkedEntries;
    WordOf(|DataAt(t[b], p).value.key| + |DataAt(t[b], p).value.value|);
  }

  lemma FewerBytes(size: nat, m: nat, n: nat)
    requires n <= m
    ensures size * n <= size * m
  {
  }

  /** The total size falls at least by the bytes of the keys and values that are gone. */
  lemma ShrunkSize(k: Counters, t: Table, j: Counters, u: Table, z: Sizes)
    requires Exact(k, t, z) && Exact(j, u, z) && Shrunk(t, u)
    ensures TotalDataSize(j) <= TotalDataSize(k) - (DataBytes(t) - DataBytes(u))
  {
    var m, n := Total(Records, t), Total(Records, u);
    hide Total, LinkedEntries, LongestChain;
    FewerBytes(z.overhead, m, n);
  }

  lemma AddGrowth(k: Counters, stat: Stat, overhead: nat)
    requires Complete(k)
    ensures Complete(CountForAdd(k, stat, overhead))
    ensures TotalDataSize(CountForAdd(k, stat, overhead))
      <= TotalDataSize(k) + stat.keySize + stat.valueSize + overhead + ENTRY_SIZE
  {
    CountersForAdd(k, stat, overhead);
  }

  /** As many records as before are the same records, and the same bytes. */
  lemma SameRecordsSameSize(k: Counters, t: Table, j: Counters, u: Table, z: Sizes)
    requires Exact(k, t, z) && Exact(j, u, z) && Shrunk(t, u) && Total(Records, u) == Total(Records, t)
    ensures TotalDataSize(j) == TotalDataSize(k)
  {
    hide Total, LinkedEntries, LongestChain;
  }

  lemma SameKeysSameRecords(t: Table, u: Table, h: Hash, m: map<Blob, Blob>, n: map<Blob, Blob>)
    requires TableOk(t, h) && Represents(t, h, m) && TableOk(u, h) && Represents(u, h, n) && n.Keys <= m.Keys
    ensures n.Keys == m.Keys ==> Total(Records, u) == Total(Records, t)
    ensures n.Keys != m.Keys ==> Total(Records, u) < Total(Records, t)
  {
    hide TableOk, Represents, Total;
    RecordsTotalIsMapSize(t, h, m);
    RecordsTotalIsMapSize(u, h, n);
    assert |m.Keys| == |m| && |n.Keys| == |n|;
    if n.Keys != m.Keys {
      var key :| key in m.Keys && key !in n.Keys;
      FewerElements(n.Keys, m.Keys, key);
    }
  }

  lemma FewerElements(a: set<Blob>, b: set<Blob>, x: Blob)
    requires a <= b && x in b && x !in a
    ensures |a| < |b|
  {
    var rest := b - {x};
    assert a <= rest;
    SubsetSize(a, rest);
    assert |rest| == |b| - 1;
  }

  lemma {:induction false} SubsetSize(a: set<Blob>, b: set<Blob>)
    requires a <= b
    ensures |a| <= |b|
  {
    if a != {} {
      var x :| x in a;
      SubsetSize(a - {x}, b - {x});
    }
  }

  /** An eviction that wants bytes leaves no table but an empty one as it was. */
  lemma SweepTakesSomething(t: Table, u: Table, h: Hash, m: map<Blob, Blob>, n: map<Blob, Blob>, wanted: nat)
    requires TableOk(t, h) && Represents(t, h, m) && TableOk(u, h) && Represents(u, h, n) && n.Keys <= m.Keys
    requires Shrunk(t, u) && wanted > 0
    requires Total(CountedBytes, t) - Total(CountedBytes, u) >= wanted || NoData(u)
    ensures n.Keys == m.Keys <==> m == map[]
  {
    hide TableOk, Represents, Total, NoData, DataBytes, LinkedEntries;
    SameKeysSameRecords(t, u, h, m, n);
    if NoData(u) {
      NoDataNoKeys(u, h, n);
      assert m.Keys == {} <==> m == map[];
    } else {
      assert DataBytes(u) < DataBytes(t);
      assert n.Keys != m.Keys;
      assert m == map[] ==> m.Keys == {};
    }
  }

  lemma NoDataNoKeys(t: Table, h: Hash, m: map<Blob, Blob>)
    requires TableOk(t, h) && Represents(t, h, m) && NoData(t)
    ensures m == map[]
  {
    forall key ensures key !in m {
      LookupIsExact(t, h, m, key);
    }
  }

  // ----- soundness -----

  /** Two stored values that differ at most in their access bits. */
  ghost predicate SameButBit(v: Blob, w: Blob) {
    |v| >= META_SIZE && |w| >= META_SIZE && v[META_SIZE..] == w[META_SIZE..] && EpochTime(v) == EpochTime(w)
  }

  lemma SameButBitTwice(u: Blob, v: Blob, w: Blob)
    requires SameButBit(u, v) && SameButBit(v, w)
    ensures SameButBit(u, w)
  {
  }

  /** From m to n exactly the given records are gone, each of them once; the others differ at most in
      their access bits. */
  ghost predicate HandedOver(m: map<Blob, Blob>, n: map<Blob, Blob>, out: seq<Record>) {
    && (forall key :: key in n ==> key in m && SameButBit(m[key], n[key]))
    && (forall r :: r in out ==> r.key in m && r.key !in n && SameButBit(m[r.key], r.value))
    && (forall key :: key in m && key !in n ==> exists i :: 0 <= i < |out| && out[i].key == key)
    && DistinctKeys(out)
  }

  lemma KeysLeft(m: map<Blob, Blob>, before: seq<Record>, n: map<Blob, Blob>, after: seq<Record>)
    requires Registered(m, before, n, after)
    ensures n.Keys <= m.Keys
  {
  }

  /** The releases registered in between are those of the records that are gone. */
  ghost predicate Registered(m: map<Blob, Blob>, before: seq<Record>, n: map<Blob, Blob>, after: seq<Record>) {
    before <= after && HandedOver(m, n, after[|before|..])
  }

  lemma NothingRegistered(m: map<Blob, Blob>, latest: map<Blob, Stamped>, before: seq<Record>)
    requires Sound(m, latest)
    ensures Registered(m, before, m, before)
  {
  }

  lemma BitRegistersNothing(m: map<Blob, Blob>, latest: map<Blob, Stamped>, key: Blob, on: bool, before: seq<Record>)
    requires Sound(m, latest) && key in m
    ensures |m[key]| >= META_SIZE && Registered(m, before, m[key := WithAccess(m[key], on)], before)
  {
    UpdateIsIndependent(m[key], on);
  }

  lemma RemovalRegistersOne(m: map<Blob, Blob>, latest: map<Blob, Stamped>, r: Record, before: seq<Record>)
    requires Sound(m, latest) && r.key in m && m[r.key] == r.value
    ensures Registered(m, before, m - {r.key}, before + [r])
  {
    assert (before + [r])[|before|..] == [r];
    assert [r][0].key == r.key;
  }

  lemma HandedOverTwice(m: map<Blob, Blob>, n: map<Blob, Blob>, o: map<Blob, Blob>, first: seq<Record>,
                        second: seq<Record>)
    requires HandedOver(m, n, first) && HandedOver(n, o, second)
    ensures HandedOver(m, o, first + second)
  {
    hide EpochTime, SameButBit;
    var out := first + second;
    forall key | key in o ensures SameButBit(m[key], o[key]) {
      SameButBitTwice(m[key], n[key], o[key]);
    }
    forall r | r in second ensures SameButBit(m[r.key], r.value) {
      SameButBitTwice(m[r.key], n[r.key], r.value);
    }
    forall key | key in m && key !in o ensures exists i :: 0 <= i < |out| && out[i].key == key {
      if key in n {
        var i :| 0 <= i < |second| && second[i].key == key;
        assert out[|first| + i].key == key;
      } else {
        var i :| 0 <= i < |first| && first[i].key == key;
        assert out[i].key == key;
      }
    }
    DistinctAppend(first, second);
  }

  lemma RegisteredThen(m: map<Blob, Blob>, a: seq<Record>, n: map<Blob, Blob>, b: seq<Record>, o: map<Blob, Blob>,
                       c: seq<Record>)
    requires Registered(m, a, n, b) && Registered(n, b, o, c)
    ensures Registered(m, a, o, c)
  {
    HandedOverTwice(m, n, o, b[|a|..], c[|b|..]);
    assert c[|a|..] == b[|a|..] + c[|b|..];
  }

  /** No other record of the key's bucket is expired. */
  ghost predicate BucketFresh(m: map<Blob, Blob>, h: Hash, buckets: nat, key: Blob, now: nat, timeToLive: int)
    requires buckets > 0
  {
    forall k :: k in m && k != key && h.BucketOf(k, buckets) == h.BucketOf(key, buckets) ==>
      |m[k]| >= META_SIZE && !IsExpired(m[k], now, timeToLive)
  }

  /** No record of the key's bucket is expired, that of the key included. */
  ghost predicate NoneExpired(m: map<Blob, Blob>, h: Hash, buckets: nat, key: Blob, now: nat, timeToLive: int)
    requires buckets > 0
  {
    forall k :: k in m && h.BucketOf(k, buckets) == h.BucketOf(key, buckets) ==>
      |m[k]| >= META_SIZE && !IsExpired(m[k], now, timeToLive)
  }

  lemma EvictionsKeepFresh(m: map<Blob, Blob>, n: map<Blob, Blob>, a: seq<Record>, b: seq<Record>, h: Hash,
                           buckets: nat, key: Blob, now: nat, timeToLive: int)
    requires buckets > 0 && Registered(m, a, n, b) && BucketFresh(m, h, buckets, key, now, timeToLive)
    ensures BucketFresh(n, h, buckets, key, now, timeToLive)
  {
  }

  lemma AddedStaysFresh(m: map<Blob, Blob>, h: Hash, buckets: nat, key: Blob, value: Blob, now: nat, timeToLive: int)
    requires buckets > 0 && BucketFresh(m, h, buckets, key, now, timeToLive)
    ensures BucketFresh(m[key := value], h, buckets, key, now, timeToLive)
  {
  }

  lemma SoundAfterUpdate(m: map<Blob, Blob>, latest: map<Blob, Stamped>, key: Blob, on: bool)
    requires Sound(m, latest) && key in m
    ensures |m[key]| >= META_SIZE && Sound(m[key := WithAccess(m[key], on)], latest)
  {
    UpdateIsIndependent(m[key], on);
  }

  lemma SoundAfterAdd(m: map<Blob, Blob>, latest: map<Blob, Stamped>, key: Blob, value: Blob, time: nat)
    requires Sound(m, latest)
    ensures Sound(m[key := Stamp(time) + value], latest[key := Stamped(value, time)])
  {
    StampHoldsTime(time, value);
    assert (Stamp(time) + value)[META_SIZE..] == value;
  }

  lemma SoundAfterRemoval(m: map<Blob, Blob>, latest: map<Blob, Stamped>, key: Blob)
    requires Sound(m, latest)
    ensures Sound(m - {key}, latest) && Sound(m - {key}, latest - {key})
  {
  }

  /** A record that is not expired is not older than its time to live, even when 31 bits are not
      enough for its time. */
  lemma FreshEnough(m: map<Blob, Blob>, latest: map<Blob, Stamped>, key: Blob, now: nat, timeToLive: int)
    requires Sound(m, latest) && key in m && !IsExpired(m[key], now, timeToLive)
    ensures now - latest[key].time <= timeToLive
  {
    assert latest[key].time % TIMES <= latest[key].time;
  }

  /** The map after a visit by time only: exactly the expired keys of the bucket are gone. */
  lemma TimeVisitIsExact(t: Table, u: Table, h: Hash, m: map<Blob, Blob>, n: map<Blob, Blob>, b: nat, rule: Rule)
    requires TableOk(t, h) && Represents(t, h, m) && TableOk(u, h) && Represents(u, h, n) && b < |t| && !rule.clock
    requires u == t[b := Visited(t[b], rule)]
    requires forall key :: key in m ==> |m[key]| >= META_SIZE
    ensures forall key :: key in n <==>
      key in m && !(h.BucketOf(key, |t|) == b && IsExpired(m[key], rule.now, rule.timeToLive))
    ensures forall key :: key in n ==> key in m && n[key] == m[key]
  {
    forall key
      ensures key in n <==> key in m && !(h.BucketOf(key, |t|) == b && IsExpired(m[key], rule.now, rule.timeToLive))
      ensures key in n ==> key in m && n[key] == m[key]
    {
      TimeVisitOfKey(t, u, h, m, n, b, rule, key);
    }
  }

  lemma TimeVisitOfKey(t: Table, u: Table, h: Hash, m: map<Blob, Blob>, n: map<Blob, Blob>, b: nat, rule: Rule,
                       key: Blob)
    requires TableOk(t, h) && Represents(t, h, m) && TableOk(u, h) && Represents(u, h, n) && b < |t| && !rule.clock
    requires u == t[b := Visited(t[b], rule)]
    requires key in m ==> |m[key]| >= META_SIZE
    ensures key in n <==> key in m && !(h.BucketOf(key, |t|) == b && IsExpired(m[key], rule.now, rule.timeToLive))
    ensures key in n ==> key in m && n[key] == m[key]
  {
    var a := h.BucketOf(key, |t|);
    LookupIsExact(t, h, m, key);
    LookupIsExact(u, h, n, key);
    hide TableOk, Represents, IsExpired, Visited;
    assert ChainOk(t[b]) by {
      WellShapedTable(t, h);
    }
    forall q
      ensures Holds(u[a], q, key) <==> Holds(t[a], q, key) && !(a == b && IsExpired(m[key], rule.now, rule.timeToLive))
      ensures Holds(u[a], q, key) ==> DataAt(u[a], q) == DataAt(t[a], q)
    {
      VisitedAt(t[b], rule, q);
    }
    if key in m {
      var p :| Holds(t[a], p, key);
      assert Holds(u[a], p, key) <==> !(a == b && IsExpired(m[key], rule.now, rule.timeToLive));
    }
  }

  /** The map after a sweep: which keys are gone depends on how often their bucket was visited and on
      what their record was like before; the others keep value and time and lose the access bit. */
  lemma SweepIsExact(t: Table, u: Table, h: Hash, m: map<Blob, Blob>, n: map<Blob, Blob>, hand: nat, steps: nat,
                     rule: Rule, key: Blob)
    requires TableOk(t, h) && Represents(t, h, m) && TableOk(u, h) && Represents(u, h, n) && WellShaped(t)
    requires u == Swept(t, hand, steps, rule) && steps <= 2 * |t| && rule.clock
    requires key in m ==> |m[key]| >= META_SIZE
    ensures var visits := Visits(hand, steps, |t|, h.BucketOf(key, |t|));
      && (key in n <==>
            && key in m && visits != 2
            && !(visits == 1 && (IsExpired(m[key], rule.now, rule.timeToLive) || !IsAccessed(m[key]))))
      && (key in n ==>
            && |n[key]| == |m[key]| && n[key][META_SIZE..] == m[key][META_SIZE..]
            && EpochTime(n[key]) == EpochTime(m[key])
            && (IsAccessed(n[key]) <==> IsAccessed(m[key]) && visits == 0))
  {
    var b := h.BucketOf(key, |t|);
    LookupIsExact(t, h, m, key);
    LookupIsExact(u, h, n, key);
    hide TableOk, Represents, IsExpired, IsAccessed, EpochTime, Swept, Visits;
    forall q
      ensures InChain(u[b], q) <==> InChain(t[b], q)
      ensures InChain(t[b], q) ==>
        DataAt(u[b], q) == SlotAfterVisits(DataAt(t[b], q), Visits(hand, steps, |t|, b), rule)
    {
      SweptShape(t, hand, steps, rule, b, q);
      if InChain(t[b], q) {
        SweptAt(t, hand, steps, rule, b, q);
      }
    }
    forall q ensures Holds(u[b], q, key) ==> Holds(t[b], q, key) {
      if Holds(u[b], q, key) {
        VisitsKeepKey(DataAt(t[b], q), Visits(hand, steps, |t|, b), rule);
      }
    }
    if key in m {
      var p :| Holds(t[b], p, key);
      SecondChance(t, hand, steps, rule, b, p);
    }
  }

  /** What visits of the buckets from the hand on leave of the map m: n. */
  ghost predicate AfterSweep(m: map<Blob, Blob>, n: map<Blob, Blob>, h: Hash, buckets: nat, hand: nat, steps: nat,
                             now: nat, timeToLive: int)
    requires buckets > 0
  {
    forall key :: AfterVisits(m, n, key, Visits(hand, steps, buckets, h.BucketOf(key, buckets)), now, timeToLive)
  }

  /** What happens to a key whose bucket is visited that often. */
  ghost predicate AfterVisits(m: map<Blob, Blob>, n: map<Blob, Blob>, key: Blob, visits: nat, now: nat,
                              timeToLive: int) {
    && (key in m ==> |m[key]| >= META_SIZE)
    && (key in n <==>
          key in m && visits != 2 && !(visits == 1 && (IsExpired(m[key], now, timeToLive) || !IsAccessed(m[key]))))
    && (key in n ==>
          && |n[key]| == |m[key]| && n[key][META_SIZE..] == m[key][META_SIZE..]
          && EpochTime(n[key]) == EpochTime(m[key])
          && (IsAccessed(n[key]) <==> IsAccessed(m[key]) && visits == 0))
  }

  lemma SweepOfMap(t: Table, u: Table, h: Hash, m: map<Blob, Blob>, n: map<Blob, Blob>, hand: nat, steps: nat,
                   now: nat, timeToLive: int, latest: map<Blob, Stamped>)
    requires TableOk(t, h) && Represents(t, h, m) && TableOk(u, h) && Represents(u, h, n) && WellShaped(t)
    requires u == Swept(t, hand, steps, Rule(true, now, timeToLive)) && steps <= 2 * |t| && Sound(m, latest)
    ensures AfterSweep(m, n, h, |t|, hand, steps, now, timeToLive)
  {
    hide TableOk, Represents, Swept, Visits, IsExpired, IsAccessed, EpochTime;
    forall key
      ensures AfterVisits(m, n, key, Visits(hand, steps, |t|, h.BucketOf(key, |t|)), now, timeToLive)
    {
      SweepIsExact(t, u, h, m, n, hand, steps, Rule(true, now, timeToLive), key);
    }
  }

  lemma {:induction false} VisitsKeepKey(d: Option<Record>, m: nat, rule: Rule)
    ensures SlotAfterVisits(d, m, rule).Some? ==> d.Some? && SlotAfterVisits(d, m, rule).value.key == d.value.key
  {
    if m > 0 {
      VisitsKeepKey(d, m - 1, rule);
    }
  }

  lemma EveryBucketLinksAnEntry(t: Table, h: Hash)
    requires TableOk(t, h)
    ensures LinkedEntries(t) >= |t|
  {
    forall b | 0 <= b < |t| ensures |t[b]| > 0 {
      assert BucketOk(t[b], h, b, |t|);
    }
    NoEmptyChain(t);
  }

  lemma {:induction false} NoEmptyChain(t: Table)
    requires forall b :: 0 <= b < |t| ==> |t[b]| > 0
    ensures LinkedEntries(t) >= |t|
  {
    if t != [] {
      NoEmptyChain(t[1..]);
    }
  }

  lemma WellShapedTable(t: Table, h: Hash)
    requires TableOk(t, h)
    ensures WellShaped(t)
  {
  }

  class CacheHashTable {
    const base: WritableHashTable
    const maxCacheSizeInBytes: nat
    const recordTimeToLive: int
    const forceTimeBasedEviction: bool
    var currentEvictBucketIndex: nat
    ghost const mutexes: nat
    ghost const platform: Platform
    ghost var latest: map<Blob, Stamped>
    ghost var registered: seq<Record> // the records whose release ReleaseRecord has registered, in order

    ghost predicate Valid()
      reads this, base, base.table, base.table.buckets, base.table.entries, base.table.perfData
    {
      && base.Valid() && base.serializer.WidthsFit() && base.serializer.metadataSize == META_SIZE
      && IsMutexCount(base.table.setting, mutexes)
      && Exact(base.table.perfData.counters, base.table.view, Z())
      && Sound(base.table.contents, latest)
    }

    ghost function Z(): Sizes {
      Sizes(mutexes, platform, base.serializer.CalculateRecordOverhead())
    }

    /** The records get four bytes of metadata in front of their values. */
    constructor (table: SharedHashTable, maxCacheSizeInBytes: nat, recordTimeToLive: int, forceTimeBasedEviction: bool,
                 ghost mutexes: nat, ghost platform: Platform, ghost latest: map<Blob, Stamped>)
      requires table.Valid() && IsMutexCount(table.setting, mutexes) && Sound(table.contents, latest)
      requires var z := RecordSerializer(table.setting.fixedKeySize, table.setting.fixedValueSize, META_SIZE);
        && z.WidthsFit() && AllAdmitted(z, table.contents)
        && Exact(table.perfData.counters, table.view, Sizes(mutexes, platform, z.CalculateRecordOverhead()))
      ensures Valid() && base.table == table && this.latest == latest
      ensures this.mutexes == mutexes && this.platform == platform
      ensures base.serializer == RecordSerializer(table.setting.fixedKeySize, table.setting.fixedValueSize, META_SIZE)
      ensures this.maxCacheSizeInBytes == maxCacheSizeInBytes && this.recordTimeToLive == recordTimeToLive
      ensures this.forceTimeBasedEviction == forceTimeBasedEviction && currentEvictBucketIndex == 0 && registered == []
    {
      base := new WritableHashTable(table, RecordSerializer(table.setting.fixedKeySize, table.setting.fixedValueSize,
                                                            META_SIZE));
      this.maxCacheSizeInBytes, this.recordTimeToLive := maxCacheSizeInBytes, recordTimeToLive;
      this.forceTimeBasedEviction, currentEvictBucketIndex := forceTimeBasedEviction, 0;
      this.mutexes, this.platform, this.latest, registered := mutexes, platform, latest, [];
    }

    /** The size that Evict compares with the limit is the size of everything the table stores. */
    lemma ComparedSize()
      requires Valid()
      ensures var k, t := base.table.perfData.counters, base.table.view;
        && Complete(k) && |t| == base.table.setting.numBuckets
        && k[TotalKeySize] + k[TotalValueSize] + k[TotalIndexSize]
           == Total(KeyBytes, t) + Total(ValueBytes, t) + 152 * LinkedEntries(t)
              + base.serializer.CalculateRecordOverhead() * |base.table.contents|
              + mutexes * platform.mutexSize + platform.tableSize
        && LinkedEntries(t) >= base.table.setting.numBuckets > 0
    {
      RecordsTotalIsMapSize(base.table.view, base.table.hash, base.table.contents);
      EveryBucketLinksAnEntry(base.table.view, base.table.hash);
      base.table.HasBuckets();
    }

    /** UpdateAccessStatus on the record of a slot. The byte is written inside the record's buffer; a
        slot of the model holds the decoded record, so its value changes. */
    method UpdateAccessStatus(entry: ChainedEntry, i: nat, on: bool, ghost b: nat, ghost e: nat)
      returns (isAccessBitOn: bool)
      requires Valid() && b < |base.table.chains| && e < |base.table.chains[b]| && base.table.chains[b][e] == entry
      requires InChain(base.table.view[b], Pos(e, i)) && DataAt(base.table.view[b], Pos(e, i)).Some?
      modifies base.table`view, base.table`contents, entry`tags, entry`dataList
      ensures Valid()
      ensures var p, c := Pos(e, i), old(base.table.view)[b];
        var r := DataAt(c, p).value;
        && |r.value| >= META_SIZE && r.key in old(base.table.contents) && r.value == old(base.table.contents)[r.key]
        && isAccessBitOn == IsAccessed(r.value)
        && base.table.view == old(base.table.view)[b := SetSlot(c, p, Some(Record(r.key, WithAccess(r.value, on))),
                                                                TagAt(c, p))]
        && base.table.contents == old(base.table.contents)[r.key := WithAccess(r.value, on)]
      ensures SameTotals(old(base.table.view), base.table.view)
    {
      hide Exact, TableOk, Represents, Sound, IsExpired, IsAccessed, WithAccess, SameTotals;
      assert base.table.LinkedAt(b, e);
      ghost var p := Pos(e, i);
      var record := entry.dataList[i].value;
      SlotIsOfMap(b, p, record);
      SoundAfterUpdate(base.table.contents, latest, record.key, on);
      isAccessBitOn := IsAccessed(record.value);
      var updated := Record(record.key, WithAccess(record.value, on));
      SameSizesKeepExact(base.table.perfData.counters, base.table.view, Z(), b, p, updated, entry.tags[i]);
      SameKeyKeepsMap(base.table.view, base.table.hash, base.table.contents, b, p, updated);
      var was := base.table.UpdateRecord(entry, i, Some(updated), entry.tags[i], b, e,
                                         base.table.contents[record.key := updated.value]);
    }

    /** Takes the record of a slot out and counts it. */
    method RemoveSlot(entry: ChainedEntry, i: nat, numBytesToFree: nat, ghost b: nat, ghost e: nat) returns (left: nat)
      requires Valid() && b < |base.table.chains| && e < |base.table.chains[b]| && base.table.chains[b][e] == entry
      requires InChain(base.table.view[b], Pos(e, i)) && DataAt(base.table.view[b], Pos(e, i)).Some?
      modifies this`registered, base.table`view, base.table`contents, entry`tags, entry`dataList, base.table.perfData
      ensures Valid() && base.table.view == old(base.table.view)[b := Removed(old(base.table.view)[b], Pos(e, i))]
      ensures Freed(old(base.table.view), old(base.table.perfData.counters), base.table.view,
                    base.table.perfData.counters, numBytesToFree, left)
      ensures Registered(old(base.table.contents), old(registered), base.table.contents, registered)
    {
      hide TableOk, Represents, IsExpired, IsAccessed, WithAccess, Removed, Exact, AllAdmitted, Registered, Sound,
        Freed, CountForRemove, IsMutexCount;
      assert base.table.LinkedAt(b, e);
      ghost var p, before, counters := Pos(e, i), base.table.view, base.table.perfData.counters;
      SlotIsOfMap(b, p, DataAt(before[b], p).value);
      RemovalIsAccounted(before, counters, b, p, numBytesToFree);
      var record := base.RemoveAt(entry, i, b, e);
      RemovalRegistersOne(old(base.table.contents), latest, record, registered);
      SoundAfterRemoval(old(base.table.contents), latest, record.key);
      registered := registered + [record];
      var numBytesFreed := (|record.key| + |record.value|) % U32;
      left := if numBytesFreed >= numBytesToFree then 0 else numBytesToFree - numBytesFreed;
      base.table.perfData.Increment(EvictedRecordsCount);
    }

    /** The structure, the counters and the bytes freed when one record is evicted. */
    lemma RemovalIsAccounted(t: Table, k: Counters, b: nat, p: Pos, wanted: nat)
      requires b < |t| && InChain(t[b], p) && DataAt(t[b], p).Some? && Exact(k, t, Z())
      ensures Complete(k)
      ensures var u, r := t[b := Removed(t[b], p)], DataAt(t[b], p).value;
        var size, j := (|r.key| + |r.value|) % U32, CountForRemove(k, |r.key|, |r.value|, Z().overhead);
        && Complete(j)
        && var l := j[EvictedRecordsCount := j[EvictedRecordsCount] + 1];
           Exact(l, u, Z()) && Freed(t, k, u, l, wanted, if size >= wanted then 0 else wanted - size)
    {
      RemovalShrinks(t, b, p);
      RemoveKeepsExact(k, t, b, p, Z());
      hide Removed, Total, LinkedEntries, LongestChain, DataBytes;
      var u, r := t[b := Removed(t[b], p)], DataAt(t[b], p).value;
      var j := CountForRemove(k, |r.key|, |r.value|, Z().overhead);
      assert j[EvictedRecordsCount] == k[EvictedRecordsCount];
      ExactIgnores(j, u, Z(), EvictedRecordsCount, j[EvictedRecordsCount] + 1);
      hide Exact, CountForRemove;
    }

    /** One slot of an eviction: the record goes when it is expired or, under CLOCK, when its access
        bit is found off; CLOCK clears the bit of a record that stays. */
    method VisitSlot(entry: ChainedEntry, i: nat, rule: Rule, numBytesToFree: nat, ghost b: nat, ghost e: nat)
      returns (left: nat)
      requires Valid() && rule.timeToLive == recordTimeToLive
      requires b < |base.table.chains| && e < |base.table.chains[b]| && base.table.chains[b][e] == entry && i < SLOTS
      modifies this`registered, base.table`view, base.table`contents, entry`tags, entry`dataList, base.table.perfData
      ensures Valid() && InChain(old(base.table.view)[b], Pos(e, i))
      ensures var p, c := Pos(e, i), old(base.table.view)[b];
        base.table.view == old(base.table.view)[b := SetSlot(c, p, SlotAfter(DataAt(c, p), rule),
                                                             TagAfter(DataAt(c, p), TagAt(c, p), rule))]
      ensures var p, c := Pos(e, i), old(base.table.view)[b];
        DataAt(c, p).Some? ==>
          var r := DataAt(c, p).value;
          && |r.value| >= META_SIZE
          && var expired, accessed := IsExpired(r.value, rule.now, rule.timeToLive), IsAccessed(r.value);
             && (expired || (rule.clock && !accessed) ==>
                   base.table.view == old(base.table.view)[b := SetSlot(c, p, None, 0)])
             && (!expired && !rule.clock ==> base.table.view == old(base.table.view))
             && (!expired && rule.clock && accessed ==>
                   base.table.view == old(base.table.view)[b := SetSlot(c, p,
                     Some(Record(r.key, WithAccess(r.value, false))), TagAt(c, p))])
      ensures DataAt(old(base.table.view)[b], Pos(e, i)).None? ==> base.table.view == old(base.table.view)
      ensures Freed(old(base.table.view), old(base.table.perfData.counters), base.table.view,
                    base.table.perfData.counters, numBytesToFree, left)
      ensures Registered(old(base.table.contents), old(registered), base.table.contents, registered)
    {
      hide Exact, TableOk, Represents, Sound, IsExpired, IsAccessed, WithAccess, Total, DataBytes, SetSlot, Freed,
        Registered;
      assert base.table.LinkedAt(b, e);
      ghost var p, before, counters := Pos(e, i), base.table.view, base.table.perfData.counters;
      var data := entry.dataList[i];
      left := numBytesToFree;
      NothingRegistered(base.table.contents, latest, registered);
      NothingFreed(before, counters, numBytesToFree);
      RewriteSlot(before, b, p);
      if data == None {
        return;
      }
      SlotIsOfMap(b, p, data.value);
      var evict := IsExpired(data.value.value, rule.now, recordTimeToLive);
      if !evict && rule.clock {
        BitRegistersNothing(base.table.contents, latest, data.value.key, false, registered);
        var isAccessBitOn := UpdateAccessStatus(entry, i, false, b, e);
        SameBytesFreed(before, counters, base.table.view, numBytesToFree);
        RemoveRewritten(before, b, p, Some(Record(data.value.key, WithAccess(data.value.value, false))),
                        TagAt(before[b], p));
        evict := !isAccessBitOn;
      }
      if evict {
        ghost var between, m := base.table.view, base.table.contents;
        left := RemoveSlot(entry, i, numBytesToFree, b, e);
        FreedThen(before, counters, between, counters, base.table.view, base.table.perfData.counters, numBytesToFree,
                  numBytesToFree, left);
        RegisteredThen(old(base.table.contents), old(registered), m, old(registered), base.table.contents, registered);
      }
    }

    /** The walk over a bucket that both evictions make. */
    method VisitBucket(bucketIndex: nat, rule: Rule, numBytesToFree: nat) returns (left: nat)
      requires Valid() && rule.timeToLive == recordTimeToLive && bucketIndex < |base.table.view|
      modifies this`registered, base.table`view, base.table`contents, base.table.entries, base.table.perfData
      ensures Valid() && ChainOk(old(base.table.view)[bucketIndex])
      ensures base.table.view == old(base.table.view)[bucketIndex := Visited(old(base.table.view)[bucketIndex], rule)]
      ensures Freed(old(base.table.view), old(base.table.perfData.counters), base.table.view,
                    base.table.perfData.counters, numBytesToFree, left)
      ensures Registered(old(base.table.contents), old(registered), base.table.contents, registered)
    {
      hide Exact, TableOk, Represents, Sound, IsExpired, IsAccessed, WithAccess, Total, DataBytes, SetSlot, Freed,
        VisitedUpTo, Registered;
      WellShapedTable(base.table.view, base.table.hash);
      ghost var before, counters, c := base.table.view, base.table.perfData.counters, base.table.view[bucketIndex];
      ghost var e := 0;
      var entry: ChainedEntry? := base.table.buckets[bucketIndex];
      left := numBytesToFree;
      NothingRegistered(base.table.contents, latest, registered);
      NothingFreed(before, counters, numBytesToFree);
      VisitStarts(c, rule);
      while entry != null
        invariant Valid() && e <= |c| == |base.table.chains[bucketIndex]|
        invariant entry == if e < |c| then base.table.chains[bucketIndex][e] else null
        invariant base.table.view == before[bucketIndex := VisitedUpTo(c, e, 0, rule)]
        invariant Freed(before, counters, base.table.view, base.table.perfData.counters, numBytesToFree, left)
        invariant Registered(old(base.table.contents), old(registered), base.table.contents, registered)
        decreases |c| - e
      {
        assert base.table.LinkedAt(bucketIndex, e);
        ghost var m, out := base.table.contents, registered;
        left := VisitEntry(entry, rule, numBytesToFree, left, before, counters, bucketIndex, e);
        RegisteredThen(old(base.table.contents), old(registered), m, out, base.table.contents, registered);
        VisitNextEntry(c, e, rule);
        assert base.table.LinkedAt(bucketIndex, e);
        entry := entry.next;
        e := e + 1;
      }
    }

    /** The slots of one entry, one after the other. */
    method VisitEntry(entry: ChainedEntry, rule: Rule, ghost wanted: nat, soFar: nat, ghost before: Table,
                      ghost counters: Counters, ghost b: nat, ghost e: nat)
      returns (left: nat)
      requires Valid() && rule.timeToLive == recordTimeToLive && b < |before| && ChainOk(before[b])
      requires b < |base.table.chains| && e < |base.table.chains[b]| == |before[b]| && base.table.chains[b][e] == entry
      requires base.table.view == before[b := VisitedUpTo(before[b], e, 0, rule)]
      requires Freed(before, counters, base.table.view, base.table.perfData.counters, wanted, soFar)
      modifies this`registered, base.table`view, base.table`contents, entry`tags, entry`dataList, base.table.perfData
      ensures Valid() && base.table.view == before[b := VisitedUpTo(before[b], e, SLOTS, rule)]
      ensures Freed(before, counters, base.table.view, base.table.perfData.counters, wanted, left)
      ensures Registered(old(base.table.contents), old(registered), base.table.contents, registered)
    {
      hide Exact, TableOk, Represents, Sound, IsExpired, IsAccessed, WithAccess, Total, DataBytes, SetSlot, Freed,
        VisitedUpTo, Registered, SlotAfter, TagAfter;
      left := soFar;
      NothingRegistered(base.table.contents, latest, registered);
      var i := 0;
      while i < SLOTS
        invariant i <= SLOTS && Valid() && base.table.view == before[b := VisitedUpTo(before[b], e, i, rule)]
        invariant Freed(before, counters, base.table.view, base.table.perfData.counters, wanted, left)
        invariant Registered(old(base.table.contents), old(registered), base.table.contents, registered)
      {
        ghost var between, k, l := base.table.view, base.table.perfData.counters, left;
        ClockSweep.VisitSlot(before[b], e, i, rule);
        ghost var m, out := base.table.contents, registered;
        left := VisitSlot(entry, i, rule, left, b, e);
        FreedThen(before, counters, between, k, base.table.view, base.table.perfData.counters, wanted, l, left);
        RegisteredThen(old(base.table.contents), old(registered), m, out, base.table.contents, registered);
        i := i + 1;
      }
    }

    /** EvictBasedOnTime: of the bucket of a key exactly the expired records go. */
    method EvictBasedOnTime(key: Blob, curEpochTime: nat)
      requires Valid()
      modifies this`registered, base.table`view, base.table`contents, base.table.entries, base.table.perfData
      ensures Valid()
      ensures var b := base.table.hash.BucketOf(key, |old(base.table.view)|);
        base.table.contents == map k | k in old(base.table.contents)
          && !(base.table.hash.BucketOf(k, |old(base.table.view)|) == b
               && IsExpired(old(base.table.contents)[k], curEpochTime, recordTimeToLive))
          :: old(base.table.contents)[k]
      ensures base.table.buckets.Length > 0
      ensures Complete(old(base.table.perfData.counters))
      ensures if old(NoneExpired(base.table.contents, base.table.hash, base.table.buckets.Length, key, curEpochTime,
                                 recordTimeToLive))
        then base.table.contents == old(base.table.contents)
          && TotalDataSize(base.table.perfData.counters) == TotalDataSize(old(base.table.perfData.counters))
        else base.table.contents.Keys != old(base.table.contents).Keys
      ensures BucketFresh(base.table.contents, base.table.hash, base.table.buckets.Length, key, curEpochTime,
                          recordTimeToLive)
      ensures Freed(old(base.table.view), old(base.table.perfData.counters), base.table.view,
                    base.table.perfData.counters, 0, 0)
      ensures Registered(old(base.table.contents), old(registered), base.table.contents, registered)
    {
      hide Exact, TableOk, Represents, IsExpired, Total, DataBytes, Visited, Freed, Registered, Shrunk, TotalDataSize;
      var rule := Rule(false, curEpochTime, recordTimeToLive);
      ghost var t, m := base.table.view, base.table.contents;
      var bucketIndex := base.table.hash.BucketOf(key, base.table.buckets.Length);
      var left := VisitBucket(bucketIndex, rule, 0);
      NothingWanted(t, old(base.table.perfData.counters), base.table.view, base.table.perfData.counters, left);
      ghost var k := old(base.table.perfData.counters);
      ShrunkOf(t, k, base.table.view, base.table.perfData.counters, 0, left);
      KeysLeft(m, old(registered), base.table.contents, registered);
      SameKeysSameRecords(t, base.table.view, base.table.hash, m, base.table.contents);
      if base.table.contents == m {
        SameRecordsSameSize(k, t, base.table.perfData.counters, base.table.view, Z());
      }
      TimeVisitIsExact(t, base.table.view, base.table.hash, m, base.table.contents, bucketIndex, rule);
    }

    lemma NothingWanted(t: Table, k: Counters, u: Table, j: Counters, left: nat)
      requires Freed(t, k, u, j, 0, left)
      ensures left == 0
    {
    }

    method CalculateNumBytesToFree(bytesNeeded: nat) returns (n: nat)
      requires Valid()
      ensures Complete(base.table.perfData.counters)
      ensures var k := base.table.perfData.counters;
        var total := k[TotalKeySize] + k[TotalValueSize] + k[TotalIndexSize];
        n == if bytesNeeded < maxCacheSizeInBytes && total + bytesNeeded <= maxCacheSizeInBytes then 0
          else (if total > maxCacheSizeInBytes then total - maxCacheSizeInBytes else 0) + bytesNeeded
    {
      var keys := base.table.perfData.Get(TotalKeySize);
      var values := base.table.perfData.Get(TotalValueSize);
      var index := base.table.perfData.Get(TotalIndexSize);
      var totalDataSize := keys + values + index;
      if bytesNeeded < maxCacheSizeInBytes && totalDataSize + bytesNeeded <= maxCacheSizeInBytes {
        return 0;
      }
      n := if totalDataSize > maxCacheSizeInBytes then totalDataSize - maxCacheSizeInBytes + bytesNeeded
        else bytesNeeded;
    }

    /** Evict: nothing happens when there is room for the bytes needed. Otherwise a sweep frees the
        excess over the limit and the bytes needed, and there is room afterwards or the table is empty. */
    method Evict(bytesNeeded: nat, curEpochTime: nat) returns (ghost steps: nat)
      requires Valid()
      modifies this`currentEvictBucketIndex, this`registered, base.table`view, base.table`contents,
        base.table.entries, base.table.perfData
      ensures Valid() && Complete(old(base.table.perfData.counters))
      ensures var k := old(base.table.perfData.counters);
        var total := k[TotalKeySize] + k[TotalValueSize] + k[TotalIndexSize];
        if bytesNeeded < maxCacheSizeInBytes && total + bytesNeeded <= maxCacheSizeInBytes then
          && steps == 0 && base.table.view == old(base.table.view) && base.table.contents == old(base.table.contents)
          && base.table.perfData.counters == k && registered == old(registered)
        else
          SweptFor(old(base.table.view), old(currentEvictBucketIndex), base.table.view, steps,
                   (if total > maxCacheSizeInBytes then total - maxCacheSizeInBytes else 0) + bytesNeeded, curEpochTime)
      ensures base.table.buckets.Length > 0
      ensures AfterSweep(old(base.table.contents), base.table.contents, base.table.hash, base.table.buckets.Length,
                         old(currentEvictBucketIndex), steps, curEpochTime, recordTimeToLive)
      ensures currentEvictBucketIndex == old(currentEvictBucketIndex) + steps
      ensures EvictionsCounted(old(base.table.view), old(base.table.perfData.counters), base.table.view,
                               base.table.perfData.counters)
      ensures Registered(old(base.table.contents), old(registered), base.table.contents, registered)
      ensures var k := old(base.table.perfData.counters);
        var total := k[TotalKeySize] + k[TotalValueSize] + k[TotalIndexSize];
        base.table.contents.Keys == old(base.table.contents).Keys <==>
          || (bytesNeeded < maxCacheSizeInBytes && total + bytesNeeded <= maxCacheSizeInBytes)
          || old(base.table.contents) == map[]
      ensures Complete(base.table.perfData.counters)
      ensures var j := base.table.perfData.counters;
        || j[TotalKeySize] + j[TotalValueSize] + j[TotalIndexSize] + bytesNeeded <= maxCacheSizeInBytes
        || NoData(base.table.view)
    {
      hide Exact, TableOk, Represents, IsExpired, Total, DataBytes, Visited, Sound, LeftToFree, Registered, AfterSweep,
        SweptFor, NoData, Swept, AllAdmitted, IsMutexCount, NotEnough;
      ghost var t, k := base.table.view, base.table.perfData.counters;
      ghost var m, hand := base.table.contents, currentEvictBucketIndex;
      WellShapedTable(t, base.table.hash);
      base.table.HasBuckets();
      ComparedSizeIsPositive();
      steps := 0;
      var numBytesToFree := CalculateNumBytesToFree(bytesNeeded);
      if numBytesToFree == 0 {
        SweepStarts(t, hand, 0, Rule(true, curEpochTime, recordTimeToLive));
        SweepOfMap(t, t, base.table.hash, m, m, hand, 0, curEpochTime, recordTimeToLive, latest);
        NothingRegistered(base.table.contents, latest, registered);
        return;
      }
      numBytesToFree := CalculateNumBytesToFree(bytesNeeded);
      if numBytesToFree == 0 {
        return;
      }
      var left;
      left, steps := Sweep(numBytesToFree, curEpochTime);
      EnoughFreed(t, k, base.table.view, base.table.perfData.counters, bytesNeeded, numBytesToFree, left);
      KeysLeft(old(base.table.contents), old(registered), base.table.contents, registered);
      ShrunkOf(t, k, base.table.view, base.table.perfData.counters, numBytesToFree, left);
      EnoughOrNothing(t, old(currentEvictBucketIndex), base.table.view, steps, numBytesToFree, curEpochTime);
      SweepOfMap(t, base.table.view, base.table.hash, m, base.table.contents, hand, steps, curEpochTime,
                 recordTimeToLive, latest);
      SweepTakesSomething(t, base.table.view, base.table.hash, old(base.table.contents), base.table.contents,
                          numBytesToFree);
    }

    lemma ComparedSizeIsPositive()
      requires Valid()
      ensures Complete(base.table.perfData.counters) && TotalDataSize(base.table.perfData.counters) > 0
    {
      hide LinkedEntries, Total, TableOk, Represents, SharedHashTable.HeapOk, AllAdmitted, IsMutexCount;
      ComparedSize();
    }

    lemma EnoughOrNothing(t: Table, hand: nat, u: Table, steps: nat, wanted: nat, curEpochTime: nat)
      requires SweptFor(t, hand, u, steps, wanted, curEpochTime)
      ensures WellShaped(t) && steps <= 2 * |t|
      ensures u == Swept(t, hand, steps, Rule(true, curEpochTime, recordTimeToLive))
      ensures Total(CountedBytes, t) - Total(CountedBytes, u) >= wanted || NoData(u)
    {
    }

    /** The loop of Evict. */
    method Sweep(wanted: nat, curEpochTime: nat) returns (numBytesToFree: nat, ghost steps: nat)
      requires Valid()
      modifies this`currentEvictBucketIndex, this`registered, base.table`view, base.table`contents,
        base.table.entries, base.table.perfData
      ensures Valid()
      ensures SweptFor(old(base.table.view), old(currentEvictBucketIndex), base.table.view, steps, wanted, curEpochTime)
      ensures currentEvictBucketIndex == old(currentEvictBucketIndex) + steps
      ensures Freed(old(base.table.view), old(base.table.perfData.counters), base.table.view,
                    base.table.perfData.counters, wanted, numBytesToFree)
      ensures numBytesToFree > 0 ==> NoData(base.table.view)
      ensures Registered(old(base.table.contents), old(registered), base.table.contents, registered)
    {
      hide Exact, TableOk, Represents, IsExpired, Total, DataBytes, Visited, Sound, LeftToFree, Freed, Swept, NoData,
        AllAdmitted, NotEnough, SweptFor, Registered;
      ghost var t, k, hand := base.table.view, base.table.perfData.counters, currentEvictBucketIndex;
      var rule := Rule(true, curEpochTime, recordTimeToLive);
      WellShapedTable(t, base.table.hash);
      NothingFreed(t, k, wanted);
      NothingRegistered(base.table.contents, latest, registered);
      SweepStarts(t, hand, wanted, rule);
      steps, numBytesToFree := 0, wanted;
      var numIterationsRemaining := base.table.buckets.Length * 2;
      while numBytesToFree > 0 && numIterationsRemaining > 0
        invariant Valid() && |base.table.view| == |t| && steps + numIterationsRemaining == 2 * |t|
        invariant numIterationsRemaining >= 0
        invariant currentEvictBucketIndex == hand + steps && base.table.view == Swept(t, hand, steps, rule)
        invariant Freed(t, k, base.table.view, base.table.perfData.counters, wanted, numBytesToFree)
        invariant NotEnough(t, hand, steps, wanted, rule)
        invariant Registered(old(base.table.contents), old(registered), base.table.contents, registered)
        decreases numIterationsRemaining
      {
        ghost var u, j, l := base.table.view, base.table.perfData.counters, numBytesToFree;
        StillToFree(t, k, u, j, hand, steps, rule, wanted, l);
        SweptNext(t, hand, steps, rule);
        numIterationsRemaining := numIterationsRemaining - 1;
        var currentBucketIndex := currentEvictBucketIndex % base.table.buckets.Length;
        currentEvictBucketIndex := currentEvictBucketIndex + 1;
        ghost var m, out := base.table.contents, registered;
        numBytesToFree := VisitBucket(currentBucketIndex, rule, numBytesToFree);
        FreedThen(t, k, u, j, base.table.view, base.table.perfData.counters, wanted, l, numBytesToFree);
        RegisteredThen(old(base.table.contents), old(registered), m, out, base.table.contents, registered);
        steps := steps + 1;
      }
      SweepEnds(t, k, base.table.view, base.table.perfData.counters, hand, steps, curEpochTime, wanted, numBytesToFree);
    }

    ghost predicate NotEnough(t: Table, hand: nat, steps: nat, wanted: nat, rule: Rule)
      requires WellShaped(t)
    {
      forall j :: 0 <= j < steps ==> Total(CountedBytes, t) - Total(CountedBytes, Swept(t, hand, j, rule)) < wanted
    }

    /** From t on, the visits stop at the first one after which the bytes wanted are free, and after two
        rounds at the latest, when nothing is left. */
    ghost predicate SweepLength(t: Table, hand: nat, steps: nat, wanted: nat, curEpochTime: nat) {
      var rule := Rule(true, curEpochTime, recordTimeToLive);
      && WellShaped(t) && steps <= 2 * |t| && NotEnough(t, hand, steps, wanted, rule)
      && var u := Swept(t, hand, steps, rule);
         Total(CountedBytes, t) - Total(CountedBytes, u) >= wanted || (steps == 2 * |t| && NoData(u))
    }

    /** These visits have made u. */
    ghost predicate SweptFor(t: Table, hand: nat, u: Table, steps: nat, wanted: nat, curEpochTime: nat) {
      && SweepLength(t, hand, steps, wanted, curEpochTime)
      && u == Swept(t, hand, steps, Rule(true, curEpochTime, recordTimeToLive))
    }

    /** In bytes of keys and values, for records of less than 2^32 bytes: fewer than wanted are free
        before the last visit, and enough after it unless nothing is left. */
    lemma SweepFreesBytes(t: Table, hand: nat, steps: nat, wanted: nat, curEpochTime: nat)
      requires SweepLength(t, hand, steps, wanted, curEpochTime) && SmallRecords(t)
      ensures WellShaped(t) && steps <= 2 * |t|
      ensures var rule, bytes := Rule(true, curEpochTime, recordTimeToLive), Total(KeyBytes, t) + Total(ValueBytes, t);
        && (forall j :: 0 <= j < steps ==>
              var u := Swept(t, hand, j, rule);
              bytes - (Total(KeyBytes, u) + Total(ValueBytes, u)) < wanted)
        && var u := Swept(t, hand, steps, rule);
           bytes - (Total(KeyBytes, u) + Total(ValueBytes, u)) >= wanted || (steps == 2 * |t| && NoData(u))
    {
      hide SmallRecords, NoData, Total;
      var rule := Rule(true, curEpochTime, recordTimeToLive);
      forall j: nat ensures var u := Swept(t, hand, j, rule);
        Total(CountedBytes, u) == Total(KeyBytes, u) + Total(ValueBytes, u) {
        SweepKeepsSmall(t, hand, j, rule);
        CountedIsData(Swept(t, hand, j, rule));
      }
      CountedIsData(t);
    }

    lemma SweepStarts(t: Table, hand: nat, wanted: nat, rule: Rule)
      requires WellShaped(t)
      ensures Swept(t, hand, 0, rule) == t && NotEnough(t, hand, 0, wanted, rule)
    {
    }

    lemma StillToFree(t: Table, k: Counters, u: Table, j: Counters, hand: nat, steps: nat, rule: Rule, wanted: nat,
                      left: nat)
      requires WellShaped(t) && NotEnough(t, hand, steps, wanted, rule) && u == Swept(t, hand, steps, rule)
      requires Freed(t, k, u, j, wanted, left) && left > 0
      ensures NotEnough(t, hand, steps + 1, wanted, rule)
    {
    }

    lemma SweepEnds(t: Table, k: Counters, u: Table, j: Counters, hand: nat, steps: nat, curEpochTime: nat,
                    wanted: nat, left: nat)
      requires var rule := Rule(true, curEpochTime, recordTimeToLive);
        WellShaped(t) && steps <= 2 * |t| && u == Swept(t, hand, steps, rule) && NotEnough(t, hand, steps, wanted, rule)
      requires Freed(t, k, u, j, wanted, left) && (left == 0 || steps == 2 * |t|)
      ensures SweptFor(t, hand, u, steps, wanted, curEpochTime) && (left > 0 ==> NoData(u))
    {
      TwoRoundsEmpty(t, hand, Rule(true, curEpochTime, recordTimeToLive));
    }

    /** To free the excess over the limit and the bytes needed is enough. */
    lemma EnoughFreed(t: Table, k: Counters, u: Table, j: Counters, bytesNeeded: nat, wanted: nat, left: nat)
      requires Exact(k, t, Z()) && Exact(j, u, Z()) && Freed(t, k, u, j, wanted, left)
      requires var total := k[TotalKeySize] + k[TotalValueSize] + k[TotalIndexSize];
        wanted == (if total > maxCacheSizeInBytes then total - maxCacheSizeInBytes else 0) + bytesNeeded
      ensures left == 0 ==>
        j[TotalKeySize] + j[TotalValueSize] + j[TotalIndexSize] + bytesNeeded <= maxCacheSizeInBytes
    {
      hide Exact, Total, DataBytes, LinkedEntries;
      ShrunkSize(k, t, j, u, Z());
    }

    /** Add: makes room, then stores the value behind a new word of metadata. Afterwards the table is
        within its limit, up to the overhead of one record and one entry, or it holds nothing but the
        new record; only a record of 2^32 bytes or more, whose need wraps, may exceed that. Sizes that
        the settings refuse are found out only after the evictions. */
    method Add(key: Blob, value: Blob, timeOfEviction: nat, timeOfSweep: nat, timeOfRecord: nat)
      returns (r: Result<(), string>, ghost left: map<Blob, Blob>, ghost steps: nat)
      requires Valid() && |key| < U16 && META_SIZE + |value| < U32
      modifies this`currentEvictBucketIndex, this`latest, this`registered
      modifies base.table`view, base.table`chains, base.table`entries, base.table`contents, base.table.entries,
        base.table.perfData
      ensures Valid() && fresh(base.table.entries - old(base.table.entries))
      ensures old(base.table.entries) <= base.table.entries
      ensures r.Ok? <==>
        && (base.serializer.fixedKeySize == 0 || |key| == base.serializer.fixedKeySize)
        && (base.serializer.fixedValueSize == 0 || |value| == base.serializer.fixedValueSize)
      ensures r.Err? ==> (base.table.contents.Keys == old(base.table.contents).Keys
        <==> old(NothingToEvict(key, (|key| + |value| + META_SIZE) % U32, timeOfEviction)))
      ensures r.Err? ==> latest == old(latest)
      ensures r.Err? ==> Registered(old(base.table.contents), old(registered), base.table.contents, registered)
      ensures r.Ok? ==> latest == old(latest)[key := Stamped(value, timeOfRecord)]
      ensures base.table.contents == if r.Ok? then left[key := Stamp(timeOfRecord) + value] else left
      ensures r.Ok? ==> Registered(old(base.table.contents), old(registered), base.table.contents - {key}, registered)
      ensures Complete(old(base.table.perfData.counters)) && base.table.buckets.Length > 0
      ensures forceTimeBasedEviction ==>
        BucketFresh(base.table.contents, base.table.hash, base.table.buckets.Length, key, timeOfEviction,
                    recordTimeToLive)
      ensures var k, need := old(base.table.perfData.counters), (|key| + |value| + META_SIZE) % U32;
        var total := k[TotalKeySize] + k[TotalValueSize] + k[TotalIndexSize];
        if need < maxCacheSizeInBytes && total + need <= maxCacheSizeInBytes then
          && steps == 0 && left == old(LeftByTime(key, timeOfEviction))
          && (!forceTimeBasedEviction ==> left == old(base.table.contents))
        else
          !forceTimeBasedEviction ==>
            SweepLength(old(base.table.view), old(currentEvictBucketIndex), steps,
                        (if total > maxCacheSizeInBytes then total - maxCacheSizeInBytes else 0) + need, timeOfSweep)
      ensures AfterSweep(old(LeftByTime(key, timeOfEviction)), left, base.table.hash, base.table.buckets.Length,
                         old(currentEvictBucketIndex), steps, timeOfSweep, recordTimeToLive)
      ensures currentEvictBucketIndex == old(currentEvictBucketIndex) + steps
      ensures Complete(base.table.perfData.counters)
      ensures var j, wrapped := base.table.perfData.counters, if |key| + |value| + META_SIZE < U32 then 0 else U32;
        r.Ok? ==>
        || j[TotalKeySize] + j[TotalValueSize] + j[TotalIndexSize]
             <= maxCacheSizeInBytes + base.serializer.CalculateRecordOverhead() + ENTRY_SIZE + wrapped
        || base.table.contents == map[key := Stamp(timeOfRecord) + value]
    {
      hide Exact, TableOk, Represents, IsExpired, Total, DataBytes, Sound, AllAdmitted, EvictionsCounted, SweepLength,
        CountForAdd, BucketFresh, NoneExpired, Freed, Registered, Stamp, NoData, AfterSweep, IsMutexCount,
        TotalDataSize, LeftByTime, NothingToEvict, SharedHashTable.HeapOk, Z, RecordSerializer.CalculateRecordOverhead;
      ghost var between, counters;
      between, counters, steps := MakeRoom(key, (|key| + |value| + META_SIZE) % U32, timeOfEviction, timeOfSweep);
      left := base.table.contents;
      WordOfTwo(|key| + |value| + META_SIZE);
      ghost var m, n, out := base.table.contents, base.table.buckets.Length, registered;
      if forceTimeBasedEviction {
        AddedStaysFresh(m, base.table.hash, n, key, Stamp(timeOfRecord) + value, timeOfEviction, recordTimeToLive);
      }
      r := Store(key, value, timeOfRecord);
      if r.Ok? {
        RegisteredThen(old(base.table.contents), old(registered), m, out, base.table.contents - {key}, registered);
      }
    }

    /** WritableBase::Add of the record that CreateRecordBuffer makes. */
    method Store(key: Blob, value: Blob, time: nat) returns (r: Result<(), string>)
      requires Valid() && |key| < U16 && META_SIZE + |value| < U32
      modifies this`latest, this`registered
      modifies base.table`view, base.table`chains, base.table`entries, base.table`contents, base.table.entries,
        base.table.perfData
      ensures Valid() && fresh(base.table.entries - old(base.table.entries))
      ensures old(base.table.entries) <= base.table.entries
      ensures r.Ok? <==>
        && (base.serializer.fixedKeySize == 0 || |key| == base.serializer.fixedKeySize)
        && (base.serializer.fixedValueSize == 0 || |value| == base.serializer.fixedValueSize)
      ensures r.Err? ==> latest == old(latest) && registered == old(registered)
      ensures r.Err? ==> base.table.contents == old(base.table.contents)
      ensures r.Ok? ==> latest == old(latest)[key := Stamped(value, time)]
      ensures r.Ok? ==> base.table.contents == old(base.table.contents)[key := Stamp(time) + value]
      ensures Complete(base.table.perfData.counters) && Complete(old(base.table.perfData.counters))
      ensures var j, k := base.table.perfData.counters, old(base.table.perfData.counters);
        r.Ok? ==>
          j[TotalKeySize] + j[TotalValueSize] + j[TotalIndexSize]
            <= k[TotalKeySize] + k[TotalValueSize] + k[TotalIndexSize]
               + |key| + META_SIZE + |value| + base.serializer.CalculateRecordOverhead() + ENTRY_SIZE
      ensures r.Ok? ==> Registered(old(base.table.contents), old(registered), base.table.contents - {key}, registered)
      ensures r.Ok? && NoData(old(base.table.view)) ==> base.table.contents == map[key := Stamp(time) + value]
    {
      hide Exact, TableOk, Represents, IsExpired, Sound, AllAdmitted, Registered, Stamp, NoData, IsMutexCount,
        SharedHashTable.HeapOk, RecordSerializer.CalculateRecordOverhead, RecordSerializer.Layout, Z;
      var buffer := CreateStampedBuffer(key, value, time);
      if buffer.Err? {
        return Err(buffer.error);
      }
      AddStamped(buffer.value, key, value, time);
      r := Ok(());
    }

    lemma WordOfTwo(n: nat)
      requires n < 2 * U32
      ensures n == n % U32 + if n < U32 then 0 else U32
    {
    }

    /** The evictions in front of an Add: the one by time, which leaves a table with the given counters,
        and the sweep of that table. */
    method MakeRoom(key: Blob, bytesNeeded: nat, timeOfEviction: nat, timeOfSweep: nat)
      returns (ghost between: Table, ghost counters: Counters, ghost steps: nat)
      requires Valid()
      modifies this`currentEvictBucketIndex, this`registered
      modifies base.table`view, base.table`contents, base.table.entries, base.table.perfData
      ensures Valid() && Complete(old(base.table.perfData.counters)) && base.table.buckets.Length > 0
      ensures Complete(base.table.perfData.counters)
      ensures TableOk(between, base.table.hash) && Exact(counters, between, Z())
      ensures Represents(between, base.table.hash, old(LeftByTime(key, timeOfEviction)))
      ensures !forceTimeBasedEviction ==>
        && between == old(base.table.view) && counters == old(base.table.perfData.counters)
        && old(LeftByTime(key, timeOfEviction)) == old(base.table.contents)
      ensures var total := counters[TotalKeySize] + counters[TotalValueSize] + counters[TotalIndexSize];
        if bytesNeeded < maxCacheSizeInBytes && total + bytesNeeded <= maxCacheSizeInBytes then
          steps == 0 && base.table.view == between && base.table.contents == old(LeftByTime(key, timeOfEviction))
        else
          SweptFor(between, old(currentEvictBucketIndex), base.table.view, steps,
                   (if total > maxCacheSizeInBytes then total - maxCacheSizeInBytes else 0) + bytesNeeded, timeOfSweep)
      ensures var k := old(base.table.perfData.counters);
        var total := k[TotalKeySize] + k[TotalValueSize] + k[TotalIndexSize];
        bytesNeeded < maxCacheSizeInBytes && total + bytesNeeded <= maxCacheSizeInBytes ==>
          steps == 0 && base.table.contents == old(LeftByTime(key, timeOfEviction))
      ensures AfterSweep(old(LeftByTime(key, timeOfEviction)), base.table.contents, base.table.hash,
                         base.table.buckets.Length, old(currentEvictBucketIndex), steps, timeOfSweep, recordTimeToLive)
      ensures currentEvictBucketIndex == old(currentEvictBucketIndex) + steps
      ensures Registered(old(base.table.contents), old(registered), base.table.contents, registered)
      ensures forceTimeBasedEviction ==>
        BucketFresh(base.table.contents, base.table.hash, base.table.buckets.Length, key, timeOfEviction,
                    recordTimeToLive)
      ensures base.table.contents.Keys == old(base.table.contents).Keys
        <==> old(NothingToEvict(key, bytesNeeded, timeOfEviction))
      ensures var j := base.table.perfData.counters;
        || j[TotalKeySize] + j[TotalValueSize] + j[TotalIndexSize] + bytesNeeded <= maxCacheSizeInBytes
        || NoData(base.table.view)
    {
      hide Exact, TableOk, Represents, IsExpired, Total, DataBytes, Sound, AllAdmitted, EvictionsCounted, SweptFor,
        BucketFresh, NoneExpired, Freed, Registered, NoData, AfterSweep, IsMutexCount;
      NothingRegistered(base.table.contents, latest, registered);
      if forceTimeBasedEviction {
        EvictBasedOnTime(key, timeOfEviction);
        NoLarger(old(base.table.perfData.counters), old(base.table.view), base.table.perfData.counters,
                 base.table.view);
      }
      between, counters := base.table.view, base.table.perfData.counters;
      ghost var m, n, out := base.table.contents, base.table.buckets.Length, registered;
      assert m == old(LeftByTime(key, timeOfEviction));
      KeysLeft(old(base.table.contents), old(registered), m, out);
      steps := Evict(bytesNeeded, timeOfSweep);
      if forceTimeBasedEviction {
        EvictionsKeepFresh(m, base.table.contents, out, registered, base.table.hash, n, key, timeOfEviction,
                           recordTimeToLive);
      }
      RegisteredThen(old(base.table.contents), old(registered), m, out, base.table.contents, registered);
      KeysLeft(m, out, base.table.contents, registered);
    }

    /** Neither the time of the records in the key's bucket nor the bytes needed ask for an eviction, or
        there is nothing to evict. */
    ghost predicate NothingToEvict(key: Blob, bytesNeeded: nat, now: nat)
      requires Valid()
      reads this, base, base.table, base.table.buckets, base.table.entries, base.table.perfData
    {
      && (forceTimeBasedEviction ==>
            NoneExpired(base.table.contents, base.table.hash, base.table.buckets.Length, key, now, recordTimeToLive))
      && var k := base.table.perfData.counters;
         var total := k[TotalKeySize] + k[TotalValueSize] + k[TotalIndexSize];
         || base.table.contents == map[]
         || (bytesNeeded < maxCacheSizeInBytes && total + bytesNeeded <= maxCacheSizeInBytes)
    }

    /** What the eviction by time in front of an Add leaves. */
    ghost function LeftByTime(key: Blob, now: nat): map<Blob, Blob>
      requires Valid()
      reads this, base, base.table, base.table.buckets, base.table.entries, base.table.perfData
    {
      var m, h, n := base.table.contents, base.table.hash, base.table.buckets.Length;
      if !forceTimeBasedEviction then m
      else map k | k in m && !(h.BucketOf(k, n) == h.BucketOf(key, n) && IsExpired(m[k], now, recordTimeToLive)) :: m[k]
    }

    lemma NoLarger(k: Counters, t: Table, j: Counters, u: Table)
      requires Exact(k, t, Z()) && Exact(j, u, Z()) && Freed(t, k, u, j, 0, 0)
      ensures Complete(k) && Complete(j) && TotalDataSize(j) <= TotalDataSize(k)
    {
      hide Total, LinkedEntries, LongestChain;
      ShrunkSize(k, t, j, u, Z());
    }

    /** The cache's own CreateRecordBuffer. */
    method CreateStampedBuffer(key: Blob, value: Blob, time: nat) returns (r: Result<array<byte>, string>)
      requires base.serializer.metadataSize == META_SIZE && META_SIZE + |value| < U32
      ensures r.Ok? <==>
        && (base.serializer.fixedKeySize == 0 || |key| == base.serializer.fixedKeySize)
        && (base.serializer.fixedValueSize == 0 || |value| == base.serializer.fixedValueSize)
      ensures r.Ok? ==> fresh(r.value) && r.value[..] == base.serializer.Layout(key, Stamp(time), value)
    {
      var metaDataBuffer := new byte[META_SIZE](_ => 0);
      var metadata := new Metadata.New(metaDataBuffer, time);
      assert metaDataBuffer[..] == Stamp(time);
      r := CreateRecordBuffer(base.serializer, key, value, metaDataBuffer[..]);
    }

    /** WritableBase::Add of the new record. */
    method AddStamped(buffer: array<byte>, ghost key: Blob, ghost value: Blob, ghost time: nat)
      requires Valid() && |key| < U16 && META_SIZE + |value| < U32
      requires base.serializer.Accepts(key, value, Stamp(time))
      requires buffer[..] == base.serializer.Layout(key, Stamp(time), value)
      modifies this`latest, this`registered
      modifies base.table`view, base.table`chains, base.table`entries, base.table`contents, base.table.entries,
        base.table.perfData
      ensures Valid() && fresh(base.table.entries - old(base.table.entries))
      ensures old(base.table.entries) <= base.table.entries
      ensures latest == old(latest)[key := Stamped(value, time)]
      ensures base.table.contents == old(base.table.contents)[key := Stamp(time) + value]
      ensures Complete(base.table.perfData.counters) && Complete(old(base.table.perfData.counters))
      ensures var j, k := base.table.perfData.counters, old(base.table.perfData.counters);
        j[TotalKeySize] + j[TotalValueSize] + j[TotalIndexSize]
          <= k[TotalKeySize] + k[TotalValueSize] + k[TotalIndexSize]
             + |key| + META_SIZE + |value| + base.serializer.CalculateRecordOverhead() + ENTRY_SIZE
      ensures Registered(old(base.table.contents), old(registered), base.table.contents - {key}, registered)
      ensures NoData(old(base.table.view)) ==> base.table.contents == map[key := Stamp(time) + value]
    {
      hide Exact, TableOk, Represents, IsExpired, Total, DataBytes, Sound, CountForAdd, Stamp, NoData,
        RecordSerializer.Layout, RecordSerializer.Deserialize, RecordSerializer.Complete, IsTarget, Added, StatFor,
        Registered;
      ghost var t, m, k := base.table.view, base.table.contents, base.table.perfData.counters;
      ReadBack(base.serializer, key, Stamp(time), value);
      var record := base.serializer.Deserialize(buffer[..]);
      assert record == Record(key, Stamp(time) + value);
      ghost var p;
      var released;
      released, p := base.AddRecord(record);
      latest := latest[key := Stamped(value, time)];
      RegisterOverwritten(m, old(latest), key, Stamp(time) + value, registered);
      registered := registered + if released.Some? then [released.value] else [];
      AddedStampedIsExact(k, t, m, old(latest), record, p);
      SoundAfterAdd(m, old(latest), key, value, time);
      ghost var stat := StatFor(t[base.table.hash.BucketOf(key, |t|)], p, record);
      AddGrowth(k, stat, base.serializer.CalculateRecordOverhead());
      StatSizes(t[base.table.hash.BucketOf(key, |t|)], p, record);
      if NoData(t) {
        NoDataNoKeys(t, base.table.hash, m);
      }
    }

    lemma RegisterOverwritten(m: map<Blob, Blob>, before: map<Blob, Stamped>, key: Blob, value: Blob, out: seq<Record>)
      requires Sound(m, before)
      ensures Registered(m, out, m[key := value] - {key}, out + if key in m then [Record(key, m[key])] else [])
    {
      assert m[key := value] - {key} == m - {key};
      if key in m {
        RemovalRegistersOne(m, before, Record(key, m[key]), out);
      } else {
        assert m - {key} == m && out + [] == out;
        NothingRegistered(m, before, out);
      }
    }

    lemma StatSizes(c: Chain, p: Pos, r: Record)
      ensures StatFor(c, p, r).keySize == |r.key| && StatFor(c, p, r).valueSize == |r.value|
    {
    }

    /** No stored value is empty, so the accounting stays exact. */
    lemma AddedStampedIsExact(k: Counters, t: Table, m: map<Blob, Blob>, before: map<Blob, Stamped>, r: Record, p: Pos)
      requires TableOk(t, base.table.hash) && Represents(t, base.table.hash, m) && Exact(k, t, Z())
      requires IsTarget(t[base.table.hash.BucketOf(r.key, |t|)], r.key, p)
      requires Sound(m, before)
      ensures var b := base.table.hash.BucketOf(r.key, |t|);
        && Complete(k) && ChainOk(t[b])
        && Exact(CountForAdd(k, StatFor(t[b], p, r), Z().overhead), t[b := Added(t[b], p, r, base.table.hash)], Z())
    {
      AddKeepsExact(k, t, base.table.hash, p, r, Z());
      PreviousIsInMap(t, base.table.hash, m, r.key, p);
    }

    /** Get: a hit is the value of the latest Add of the key, at most as old as its time to live, and
        sets the access bit; an expired record is a miss, which leaves it where it is. */
    method Get(key: Blob, curEpochTime: nat) returns (value: Option<Blob>)
      requires Valid()
      modifies base.table`view, base.table`contents, base.table.entries, base.table.perfData
      ensures Valid()
      ensures value.Some? <==>
        && key in old(base.table.contents)
        && !IsExpired(old(base.table.contents)[key], curEpochTime, recordTimeToLive)
      ensures value.Some? ==> key in latest && value.value == latest[key].value
      ensures value.Some? ==> curEpochTime - latest[key].time <= recordTimeToLive
      ensures base.table.contents
        == if value.Some? then old(base.table.contents)[key := WithAccess(old(base.table.contents)[key], true)]
        else old(base.table.contents)
      ensures Complete(old(base.table.perfData.counters))
      ensures var c := if value.Some? then CacheHitCount else CacheMissCount;
        base.table.perfData.counters == old(base.table.perfData.counters)[c := old(base.table.perfData.counters)[c] + 1]
    {
      hide Exact, TableOk, Represents, IsExpired, AllAdmitted, WithAccess;
      value := GetInternal(key, curEpochTime);
      var c := if value.Some? then CacheHitCount else CacheMissCount;
      ExactIgnores(base.table.perfData.counters, base.table.view, Z(), c, base.table.perfData.counters[c] + 1);
      base.table.perfData.Increment(c);
    }

    method GetInternal(key: Blob, curEpochTime: nat) returns (value: Option<Blob>)
      requires Valid()
      modifies base.table`view, base.table`contents, base.table.entries
      ensures Valid()
      ensures value.Some? <==>
        && key in old(base.table.contents)
        && !IsExpired(old(base.table.contents)[key], curEpochTime, recordTimeToLive)
      ensures value.Some? ==> key in latest && value.value == latest[key].value
      ensures value.Some? ==> curEpochTime - latest[key].time <= recordTimeToLive
      ensures base.table.contents
        == if value.Some? then old(base.table.contents)[key := WithAccess(old(base.table.contents)[key], true)]
        else old(base.table.contents)
    {
      hide Exact, TableOk, Represents, IsExpired, AllAdmitted, WithAccess, Unique;
      ghost var b := base.table.hash.BucketOf(key, |base.table.view|);
      var entry, i, e := base.Find(key);
      if entry == null {
        return None;
      }
      assert base.table.LinkedAt(b, e);
      var stored := entry.dataList[i].value.value;
      SlotIsOfMap(b, Pos(e, i), entry.dataList[i].value);
      if IsExpired(stored, curEpochTime, recordTimeToLive) {
        return None;
      }
      FreshEnough(base.table.contents, latest, key, curEpochTime, recordTimeToLive);
      var wasOn := UpdateAccessStatus(entry, i, true, b, e);
      value := Some(stored[META_SIZE..]);
    }

    /** Remove is the one of the base class. */
    method Remove(key: Blob) returns (removed: bool)
      requires Valid()
      modifies this`latest, this`registered, base.table`view, base.table`contents, base.table.entries,
        base.table.perfData
      ensures Valid() && (removed <==> key in old(base.table.contents))
      ensures base.table.contents == old(base.table.contents) - {key} && latest == old(latest) - {key}
      ensures Registered(old(base.table.contents), old(registered), base.table.contents, registered)
    {
      hide Exact, TableOk, Represents, IsExpired, AllAdmitted, Registered, Sound, EpochTime;
      SoundAfterRemoval(base.table.contents, latest, key);
      ghost var t, k, b := base.table.view, base.table.perfData.counters, base.Bucket(key);
      var released := base.Remove(key);
      removed := released.Some?;
      latest := latest - {key};
      if removed {
        RemovalRegistersOne(old(base.table.contents), old(latest), released.value, registered);
        registered := registered + [released.value];
        RemovedIsExact(t, k, base.table.view, old(base.table.contents), b, key);
      } else {
        NothingRegistered(old(base.table.contents), old(latest), registered);
        assert old(base.table.contents) - {key} == old(base.table.contents);
      }
    }

    lemma RemovedIsExact(t: Table, k: Counters, u: Table, m: map<Blob, Blob>, b: nat, key: Blob)
      requires TableOk(t, base.table.hash) && Represents(t, base.table.hash, m) && Exact(k, t, Z())
      requires RemovedFrom(t, u, b, key)
      ensures Complete(k) && key in m && Exact(CountForRemove(k, |key|, |m[key]|, Z().overhead), u, Z())
    {
      var p :| Holds(t[b], p, key) && u == t[b := Removed(t[b], p)];
      RemoveKeepsExact(k, t, b, p, Z());
    }

    lemma SameBytesFreed(t: Table, k: Counters, u: Table, wanted: nat)
      requires Complete(k) && SameTotals(t, u)
      ensures Freed(t, k, u, k, wanted, wanted)
    {
    }

    lemma SlotIsOfMap(b: nat, p: Pos, r: Record)
      requires Valid() && b < |base.table.view| && InChain(base.table.view[b], p)
      requires DataAt(base.table.view[b], p) == Some(r)
      ensures r.key in base.table.contents && base.table.contents[r.key] == r.value && |r.value| >= META_SIZE
    {
    }
  }

  lemma RewriteSlot(t: Table, b: nat, p: Pos)
    requires b < |t| && InChain(t[b], p)
    ensures t[b := SetSlot(t[b], p, DataAt(t[b], p), TagAt(t[b], p))] == t
  {
    var c := t[b];
    assert c[p.entry].data[p.slot := DataAt(c, p)] == c[p.entry].data;
    assert c[p.entry].tags[p.slot := TagAt(c, p)] == c[p.entry].tags;
    assert SetSlot(c, p, DataAt(c, p), TagAt(c, p)) == c;
  }

  lemma RemoveRewritten(t: Table, b: nat, p: Pos, d: Option<Record>, tag: byte)
    requires b < |t| && InChain(t[b], p)
    ensures var c := SetSlot(t[b], p, d, tag);
      InChain(c, p) && DataAt(c, p) == d && t[b := c][b := Removed(c, p)] == t[b := Removed(t[b], p)]
  {
    var c, x := SetSlot(t[b], p, d, tag), t[b][p.entry];
    assert x.data[p.slot := d][p.slot := None] == x.data[p.slot := None];
    assert x.tags[p.slot := tag][p.slot := 0] == x.tags[p.slot := 0];
    assert Removed(c, p) == Removed(t[b], p);
  }

  lemma SameKeyKeepsMap(t: Table, h: Hash, m: map<Blob, Blob>, b: nat, p: Pos, r: Record)
    requires TableOk(t, h) && Represents(t, h, m) && b < |t| && InChain(t[b], p) && Holds(t[b], p, r.key)
    ensures var u := t[b := SetSlot(t[b], p, Some(r), TagAt(t[b], p))];
      TableOk(u, h) && Represents(u, h, m[r.key := r.value])
  {
    assert BucketOk(t[b], h, b, |t|);
    AddIsMapUpdate(t, h, m, p, r);
  }

  /** A cache on a new table: every run of the methods above starts in a valid state. */
  method MakeCache(setting: Setting, hash: Hash, platform: Platform, maxCacheSizeInBytes: nat, recordTimeToLive: int,
                   forceTimeBasedEviction: bool)
    returns (cache: CacheHashTable)
    requires setting.numBuckets > 0 && setting.fixedKeySize < U16 && setting.fixedValueSize < U32
    ensures fresh(cache) && fresh(cache.base.table) && cache.Valid()
    ensures fresh(cache.base.table.entries) && fresh(cache.base.table.perfData)
    ensures cache.base.serializer == RecordSerializer(setting.fixedKeySize, setting.fixedValueSize, META_SIZE)
    ensures cache.base.table.setting == setting && cache.base.table.contents == map[] && cache.latest == map[]
    ensures cache.maxCacheSizeInBytes == maxCacheSizeInBytes && cache.recordTimeToLive == recordTimeToLive
    ensures cache.forceTimeBasedEviction == forceTimeBasedEviction && cache.currentEvictBucketIndex == 0
  {
    var table := new SharedHashTable(setting, hash, platform);
    hide TableOk, Represents, InitialCounters, Exact, InitialIndexSize, IsMutexCount;
    ghost var mutexes := setting.Mutexes();
    MutexesCounted(setting, mutexes);
    ghost var z := RecordSerializer(setting.fixedKeySize, setting.fixedValueSize, META_SIZE);
    NewTableIsExact(setting, Sizes(mutexes, platform, z.CalculateRecordOverhead()));
    cache := new CacheHashTable(table, maxCacheSizeInBytes, recordTimeToLive, forceTimeBasedEviction,
                                mutexes, platform, map[]);
  }

  /** A refused Add that evicts: a cache without any room holds a record of the fixed key size, and a
      key of another size is added to it. */
  method RefusedAddEvicts(hash: Hash, platform: Platform)
    returns (cache: CacheHashTable, ghost before: map<Blob, Blob>, refusal: Result<(), string>)
    ensures fresh(cache) && cache.Valid() && refusal.Err?
    ensures [0] in before && cache.base.table.contents.Keys != before.Keys
  {
    hide Stamp, TableOk, Represents, Exact, Sound, AllAdmitted, Registered, BucketFresh, AfterSweep, IsMutexCount,
      CacheHashTable.NothingToEvict, CacheHashTable.SweepLength, CacheHashTable.LeftByTime, SharedHashTable.HeapOk;
    cache := MakeCache(Setting(1, 1, 1, 0), hash, platform, 0, 0, false);
    var first, left, steps := cache.Add([0], [], 0, 0, 0);
    before := cache.base.table.contents;
    assert [0] in before;
    NoRoom(cache);
    refusal, left, steps := cache.Add([], [], 0, 0, 0);
  }

  lemma NoRoom(cache: CacheHashTable)
    requires cache.Valid() && cache.maxCacheSizeInBytes == 0 && cache.base.table.contents != map[]
    ensures !cache.NothingToEvict([], META_SIZE, 0)
  {
  }
}
