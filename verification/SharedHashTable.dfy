/** HashTable/Common/SharedHashTable.h: the buckets, each a linked list of entries. */
module SharedTable {
  import opened Wrappers
  import opened BucketChain
  import opened PerfCounter

  /** True when the tag and the key of slot i of an entry are the ones looked for. */
  predicate Hit(e: Entry, i: nat, tag: byte, key: Blob) {
    && i < |e.tags| && i < |e.data|
    && e.tags[i] == tag && e.data[i].Some? && e.data[i].value.key == key
  }

  ghost predicate FirstWithoutData(data: seq<Option<Record>>, i: nat) {
    i < |data| && data[i].None? && forall j :: 0 <= j < i ==> data[j].Some?
  }

  /** What ScanForAdd reports about an entry. */
  ghost predicate Reported(x: Entry, tag: byte, key: Blob, seeking: bool, found: Option<nat>, vacant: Option<nat>) {
    && x.Ok()
    && (found.Some? ==> found.value < SLOTS && Hit(x, found.value, tag, key))
    && (found.None? ==> forall j :: 0 <= j < SLOTS ==> !Hit(x, j, tag, key))
    && (vacant.Some? ==> seeking && vacant.value < SLOTS && FirstWithoutData(x.data, vacant.value))
    && (found.None? && vacant.None? && seeking ==> forall j :: 0 <= j < SLOTS ==> x.data[j].Some?)
  }

  /** The settings a table is built with; a fixed size of zero means a variable one. */
  datatype Setting = Setting(numBuckets: nat, numBucketsPerMutex: nat, fixedKeySize: nat, fixedValueSize: nat) {
    /** The number of mutexes that share the buckets. */
    function Mutexes(): nat {
      var perMutex := if numBucketsPerMutex > 1 then numBucketsPerMutex else 1;
      if numBuckets / perMutex > 1 then numBuckets / perMutex else 1
    }
  }

  /** Each mutex has its own buckets, as many of them as the setting says, and there is at least one
      mutex: m is the largest number of which this is true. */
  ghost predicate IsMutexCount(s: Setting, m: nat) {
    var perMutex := if s.numBucketsPerMutex > 1 then s.numBucketsPerMutex else 1;
    m >= 1 && (m == 1 || m * perMutex <= s.numBuckets) && s.numBuckets < (m + 1) * perMutex
  }

  lemma MutexesCounted(s: Setting, m: nat)
    ensures IsMutexCount(s, m) <==> m == s.Mutexes()
  {
    var perMutex := if s.numBucketsPerMutex > 1 then s.numBucketsPerMutex else 1;
    QuotientIsLargest(s.numBuckets, perMutex, m);
    QuotientIsLargest(s.numBuckets, perMutex, 1);
    QuotientIsLargest(s.numBuckets, perMutex, 0);
  }

  lemma QuotientIsLargest(n: nat, x: nat, m: nat)
    requires x > 0
    ensures m == n / x <==> m * x <= n < (m + 1) * x
  {
    var q := n / x;
    assert n == x * q + n % x && n % x < x;
    if m > q {
      Products(x, q + 1, m);
    }
    if m < q {
      Products(x, m + 1, q);
    }
  }

  lemma Products(x: nat, m: nat, n: nat)
    ensures m <= n ==> m * x <= n * x
  {
    if m <= n {
      assert n * x == m * x + (n - m) * x;
    }
  }

  const ENTRY_SIZE: int := 152 // sizeof(Entry)

  /** Sizes of objects that depend on the platform. */
  datatype Platform = Platform(mutexSize: nat, tableSize: nat)

  /** TotalIndexSize of an empty table. */
  function InitialIndexSize(s: Setting, p: Platform): nat {
    s.numBuckets * ENTRY_SIZE + s.Mutexes() * p.mutexSize + p.tableSize
  }

  lemma InitialIndexSizeIs(s: Setting, p: Platform)
    ensures forall m: nat :: IsMutexCount(s, m) ==>
      InitialIndexSize(s, p) == ENTRY_SIZE * s.numBuckets + m * p.mutexSize + p.tableSize
  {
    hide IsMutexCount;
    forall m: nat | IsMutexCount(s, m)
      ensures InitialIndexSize(s, p) == ENTRY_SIZE * s.numBuckets + m * p.mutexSize + p.tableSize
    {
      MutexesCounted(s, m);
    }
  }

  /** One Entry: the tags and the data list are inline arrays of fixed length. Where the entry is
      linked never changes, which the two ghost constants record. */
  class ChainedEntry {
    var tags: seq<byte>
    var dataList: seq<Option<Record>>
    var next: ChainedEntry?
    ghost const bucket: nat
    ghost const index: nat

    ghost function View(): Entry
      reads this
    {
      Entry(tags, dataList)
    }

    constructor (ghost bucket: nat, ghost index: nat)
      ensures View() == EmptyEntry() && next == null
      ensures this.bucket == bucket && this.index == index
    {
      var empty := EmptyEntry();
      tags, dataList, next := empty.tags, empty.data, null;
      this.bucket, this.index := bucket, index;
    }

    /** The loop over the slots in Get and Remove. */
    method Scan(tag: byte, key: Blob) returns (i: nat)
      requires View().Ok()
      ensures i <= SLOTS
      ensures i < SLOTS ==> Hit(View(), i, tag, key)
      ensures forall j :: 0 <= j < i ==> !Hit(View(), j, tag, key)
    {
      i := 0;
      while i < SLOTS
        invariant 0 <= i <= SLOTS
        invariant forall j :: 0 <= j < i ==> !Hit(View(), j, tag, key)
      {
        if tags[i] == tag {
          var data := dataList[i];
          if data.Some? && data.value.key == key {
            return;
          }
        }
        i := i + 1;
      }
    }

    /** The loop over the slots in Add: stops at the key, and until then remembers the first slot
        without data if none has been found in an earlier entry. */
    method ScanForAdd(tag: byte, key: Blob, seeking: bool) returns (found: Option<nat>, vacant: Option<nat>)
      requires View().Ok()
      ensures Reported(View(), tag, key, seeking, found, vacant)
    {
      found, vacant := None, None;
      var i := 0;
      while i < SLOTS
        invariant 0 <= i <= SLOTS && found.None?
        invariant forall j :: 0 <= j < i ==> !Hit(View(), j, tag, key)
        invariant vacant.Some? ==> seeking && vacant.value < i && FirstWithoutData(dataList, vacant.value)
        invariant vacant.None? && seeking ==> forall j :: 0 <= j < i ==> dataList[j].Some?
      {
        var data := dataList[i];
        if data == None {
          if seeking && vacant.None? {
            vacant := Some(i);
          }
        } else if tags[i] == tag {
          if data.value.key == key {
            return Some(i), vacant;
          }
        }
        i := i + 1;
      }
    }
  }

  lemma EmptyTableOk(n: nat, h: Hash)
    requires n > 0
    ensures var t: Table := seq(n, _ => [EmptyEntry()]);
      TableOk(t, h) && Represents(t, h, map[])
  {
    var t: Table := seq(n, _ => [EmptyEntry()]);
    forall b, p | 0 <= b < n && InChain(t[b], p) ensures DataAt(t[b], p).None? {
      assert t[b][p.entry] == EmptyEntry();
    }
  }

  class SharedHashTable {
    const setting: Setting
    const hash: Hash
    const buckets: array<ChainedEntry>
    const perfData: HashTablePerfData
    ghost var entries: set<ChainedEntry>
    ghost var chains: seq<seq<ChainedEntry>> // the entries of each bucket, in the order of their links
    ghost var view: Table                    // the values of these entries
    ghost var contents: map<Blob, Blob>

    /** Entry e of bucket b is where the ghost state says, linked to its successor. */
    ghost predicate LinkedAt(b: nat, e: nat)
      requires b < |chains| && e < |chains[b]| && b < |view| && e < |view[b]|
      reads this, entries
    {
      var x := chains[b][e];
      && x in entries && x.bucket == b && x.index == e
      && x.View() == view[b][e] && x.View().Ok()
      && x.next == if e + 1 < |chains[b]| then chains[b][e + 1] else null
    }

    ghost predicate HeapOk()
      reads this, buckets, entries
    {
      && |chains| == |view| == buckets.Length == setting.numBuckets > 0
      && (forall b :: 0 <= b < |chains| ==> |chains[b]| == |view[b]| > 0 && chains[b][0] == buckets[b])
      && (forall b, e :: 0 <= b < |chains| && 0 <= e < |chains[b]| ==> LinkedAt(b, e))
    }

    lemma HasBuckets()
      requires HeapOk()
      ensures |chains| == |view| == buckets.Length > 0
    {
    }

    lemma BucketAt(b: nat)
      requires HeapOk() && b < |view|
      ensures |chains| == |view| == buckets.Length && |chains[b]| == |view[b]| > 0 && chains[b][0] == buckets[b]
      ensures forall e :: 0 <= e < |chains[b]| ==> chains[b][e] in entries
    {
      forall e | 0 <= e < |chains[b]| ensures chains[b][e] in entries {
        assert LinkedAt(b, e);
      }
    }

    ghost predicate Valid()
      reads this, buckets, entries, perfData
    {
      && HeapOk() && Complete(perfData.counters)
      && TableOk(view, hash) && Represents(view, hash, contents)
    }

    constructor (setting: Setting, hash: Hash, platform: Platform)
      requires setting.numBuckets > 0
      ensures Valid() && fresh(entries) && fresh(buckets) && fresh(perfData)
      ensures this.setting == setting && this.hash == hash
      ensures view == seq(setting.numBuckets, _ => [EmptyEntry()]) && contents == map[]
      ensures perfData.counters
        == InitialCounters()[BucketsCount := setting.numBuckets][TotalIndexSize := InitialIndexSize(setting, platform)]
      ensures forall m: nat :: IsMutexCount(setting, m) ==>
        perfData.counters[TotalIndexSize]
          == ENTRY_SIZE * setting.numBuckets + m * platform.mutexSize + platform.tableSize
    {
      hide TableOk, Represents, InitialCounters, InitialIndexSize, EmptyEntry;
      this.setting, this.hash := setting, hash;
      var heads := MakeEntries(setting.numBuckets);
      buckets := new ChainedEntry[|heads|](i requires 0 <= i < |heads| => heads[i]);
      var counters := new HashTablePerfData();
      perfData := counters;
      entries := set x | x in heads;
      chains := seq(|heads|, i requires 0 <= i < |heads| => [heads[i]]);
      view := seq(|heads|, _ => [EmptyEntry()]);
      contents := map[];
      new;
      perfData.Set(BucketsCount, setting.numBuckets);
      perfData.Set(TotalIndexSize, InitialIndexSize(setting, platform));
      EmptyTableOk(setting.numBuckets, hash);
      InitialIndexSizeIs(setting, platform);
    }

    static method MakeEntries(n: nat) returns (heads: seq<ChainedEntry>)
      ensures |heads| == n && fresh(set x | x in heads)
      ensures forall i :: 0 <= i < n ==> heads[i].bucket == i && heads[i].index == 0
      ensures forall i :: 0 <= i < n ==> heads[i].View() == EmptyEntry() && heads[i].next == null
    {
      heads := [];
      while |heads| < n
        invariant |heads| <= n && forall x :: x in heads ==> fresh(x)
        invariant forall i :: 0 <= i < |heads| ==> heads[i].bucket == i && heads[i].index == 0
        invariant forall i :: 0 <= i < |heads| ==> heads[i].View() == EmptyEntry() && heads[i].next == null
      {
        var head := new ChainedEntry(|heads|, 0);
        heads := heads + [head];
      }
    }

    /** The two stores of UpdateRecord, the data before the tag; the caller names the map that the
        table stores from then on. */
    method UpdateRecord(entry: ChainedEntry, i: nat, newRecord: Option<Record>, newTag: byte,
                        ghost b: nat, ghost e: nat, ghost newContents: map<Blob, Blob>)
      returns (oldRecord: Option<Record>)
      requires HeapOk() && b < |chains| && e < |chains[b]| && chains[b][e] == entry && i < SLOTS
      modifies this`view, this`contents, entry`tags, entry`dataList
      ensures contents == newContents
      ensures HeapOk() && InChain(old(view)[b], Pos(e, i))
      ensures view == old(view)[b := SetSlot(old(view)[b], Pos(e, i), newRecord, newTag)]
      ensures oldRecord == DataAt(old(view)[b], Pos(e, i))
    {
      assert LinkedAt(b, e);
      ghost var before := view;
      oldRecord := entry.dataList[i];
      entry.dataList := entry.dataList[i := newRecord];
      entry.tags := entry.tags[i := newTag];
      view := view[b := SetSlot(view[b], Pos(e, i), newRecord, newTag)];
      contents := newContents;
      forall b', e' | 0 <= b' < |chains| && 0 <= e' < |chains[b']| ensures LinkedAt(b', e') {
        assert old(LinkedAt(b', e'));
      }
    }

    /** Links a new entry behind the last one of a bucket. */
    method AppendEntry(last: ChainedEntry, ghost b: nat) returns (added: ChainedEntry)
      requires HeapOk() && b < |chains| && chains[b][|chains[b]| - 1] == last
      modifies this`view, this`chains, this`entries, last`next
      ensures HeapOk() && fresh(entries - old(entries)) && old(entries) <= entries
      ensures view == old(view)[b := old(view)[b] + [EmptyEntry()]]
      ensures chains == old(chains)[b := old(chains)[b] + [added]] && last.next == added
    {
      ghost var n := |chains[b]|;
      assert LinkedAt(b, n - 1);
      added := new ChainedEntry(b, n);
      last.next := added;
      chains := chains[b := chains[b] + [added]];
      view := view[b := view[b] + [EmptyEntry()]];
      entries := entries + {added};
      forall b', e' | 0 <= b' < |chains| && 0 <= e' < |chains[b']| ensures LinkedAt(b', e') {
        if b' != b || e' != n {
          assert old(LinkedAt(b', e'));
        }
      }
    }
  }
}
