/** What the counters of a table ought to say, recomputed from its structure, and which operations
    keep them exact (the accounting of ReadWrite/HashTable.h). */
module Accounting {
  import opened Wrappers
  import opened BucketChain
  import opened PerfCounter
  import opened RecordCodec
  import opened SharedTable

  /** CountedBytes is what the eviction takes for the size of a record: a 32-bit sum. */
  datatype Measure = Records | KeyBytes | ValueBytes | CountedBytes

  function Weight(m: Measure, d: Option<Record>): nat {
    match d
    case None => 0
    case Some(r) =>
      match m
      case Records => 1
      case KeyBytes => |r.key|
      case ValueBytes => |r.value|
      case CountedBytes => (|r.key| + |r.value|) % U32
  }

  function SlotTotal(m: Measure, data: seq<Option<Record>>): nat {
    if data == [] then 0 else Weight(m, data[0]) + SlotTotal(m, data[1..])
  }

  function ChainTotal(m: Measure, c: Chain): nat {
    if c == [] then 0 else SlotTotal(m, c[0].data) + ChainTotal(m, c[1..])
  }

  function Total(m: Measure, t: Table): nat {
    if t == [] then 0 else ChainTotal(m, t[0]) + Total(m, t[1..])
  }

  /** All entries, the first one of each bucket included. */
  function LinkedEntries(t: Table): nat {
    if t == [] then 0 else |t[0]| + LinkedEntries(t[1..])
  }

  function LongestChain(t: Table): nat {
    if t == [] then 1
    else
      var rest := LongestChain(t[1..]);
      if |t[0]| > rest then |t[0]| else rest
  }

  lemma {:induction false} SlotTotalUpdate(m: Measure, data: seq<Option<Record>>, i: nat, d: Option<Record>)
    requires i < |data|
    ensures SlotTotal(m, data[i := d]) + Weight(m, data[i]) == SlotTotal(m, data) + Weight(m, d)
  {
    if i == 0 {
      assert data[i := d][1..] == data[1..];
    } else {
      assert data[i := d][1..] == data[1..][i - 1 := d];
      SlotTotalUpdate(m, data[1..], i - 1, d);
    }
  }

  lemma {:induction false} ChainTotalUpdate(m: Measure, c: Chain, e: nat, entry: Entry)
    requires e < |c|
    ensures ChainTotal(m, c[e := entry]) + SlotTotal(m, c[e].data) == ChainTotal(m, c) + SlotTotal(m, entry.data)
  {
    if e == 0 {
      assert c[e := entry][1..] == c[1..];
    } else {
      assert c[e := entry][1..] == c[1..][e - 1 := entry];
      ChainTotalUpdate(m, c[1..], e - 1, entry);
    }
  }

  lemma {:induction false} TotalUpdate(m: Measure, t: Table, b: nat, c: Chain)
    requires b < |t|
    ensures Total(m, t[b := c]) + ChainTotal(m, t[b]) == Total(m, t) + ChainTotal(m, c)
  {
    if b == 0 {
      assert t[b := c][1..] == t[1..];
    } else {
      assert t[b := c][1..] == t[1..][b - 1 := c];
      TotalUpdate(m, t[1..], b - 1, c);
    }
  }

  lemma {:induction false} LinkedEntriesUpdate(t: Table, b: nat, c: Chain)
    requires b < |t|
    ensures LinkedEntries(t[b := c]) == LinkedEntries(t) - |t[b]| + |c|
  {
    if b == 0 {
      assert t[b := c][1..] == t[1..];
    } else {
      assert t[b := c][1..] == t[1..][b - 1 := c];
      LinkedEntriesUpdate(t[1..], b - 1, c);
    }
  }

  lemma {:induction false} LongestChainUpdate(t: Table, b: nat, c: Chain)
    requires b < |t| && |c| >= |t[b]|
    ensures LongestChain(t[b := c]) == if |c| > LongestChain(t) then |c| else LongestChain(t)
  {
    if b == 0 {
      assert t[b := c][1..] == t[1..];
    } else {
      assert t[b := c][1..] == t[1..][b - 1 := c];
      LongestChainUpdate(t[1..], b - 1, c);
    }
  }

  lemma {:induction false} ChainTotalAppend(m: Measure, c: Chain, entry: Entry)
    ensures ChainTotal(m, c + [entry]) == ChainTotal(m, c) + SlotTotal(m, entry.data)
  {
    if c == [] {
      assert c + [entry] == [entry] && [entry][1..] == [];
    } else {
      assert (c + [entry])[1..] == c[1..] + [entry];
      ChainTotalAppend(m, c[1..], entry);
    }
  }

  lemma {:induction false} VacantTotal(m: Measure, data: seq<Option<Record>>)
    requires forall i :: 0 <= i < |data| ==> data[i].None?
    ensures SlotTotal(m, data) == 0
  {
    if data != [] {
      VacantTotal(m, data[1..]);
    }
  }

  /** Writing one slot changes every total by what the slot gains and loses. */
  lemma SetSlotTotal(m: Measure, c: Chain, p: Pos, d: Option<Record>, tag: byte)
    requires InChain(c, p)
    ensures ChainTotal(m, SetSlot(c, p, d, tag)) + Weight(m, DataAt(c, p)) == ChainTotal(m, c) + Weight(m, d)
  {
    ChainTotalUpdate(m, c, p.entry, SetSlot(c, p, d, tag)[p.entry]);
    SlotTotalUpdate(m, c[p.entry].data, p.slot, d);
  }

  /** What the target slot holds before Add. */
  function Previous(c: Chain, p: Pos): Option<Record> {
    if InChain(c, p) then DataAt(c, p) else None
  }

  lemma ExtendedTotal(m: Measure, c: Chain, p: Pos)
    ensures ChainTotal(m, Extended(c, p)) == ChainTotal(m, c)
  {
    hide EmptyEntry, SlotTotal, ChainTotal;
    EmptyTotal(m);
    if p.entry == |c| {
      ChainTotalAppend(m, c, EmptyEntry());
    }
  }

  lemma EmptyTotal(m: Measure)
    ensures SlotTotal(m, EmptyEntry().data) == 0
  {
    hide SlotTotal;
    VacantTotal(m, EmptyEntry().data);
  }

  lemma AddedTotal(m: Measure, t: Table, h: Hash, p: Pos, r: Record)
    requires TableOk(t, h) && IsTarget(t[h.BucketOf(r.key, |t|)], r.key, p)
    ensures var b := h.BucketOf(r.key, |t|);
      Total(m, t[b := Added(t[b], p, r, h)]) + Weight(m, Previous(t[b], p)) == Total(m, t) + Weight(m, Some(r))
  {
    var b := h.BucketOf(r.key, |t|);
    var c := t[b];
    var x := Extended(c, p);
    TotalUpdate(m, t, b, Added(c, p, r, h));
    AddedAt(c, p, r, h, p);
    ExtendedAt(c, p, p);
    SetSlotTotal(m, x, p, Some(r), h.tagOf(r.key));
    ExtendedTotal(m, c, p);
    hide Total, ChainTotal, SlotTotal, EmptyEntry, Extended;
  }

  lemma RemovedTotal(m: Measure, t: Table, b: nat, p: Pos)
    requires b < |t| && InChain(t[b], p)
    ensures Total(m, t[b := Removed(t[b], p)]) + Weight(m, DataAt(t[b], p)) == Total(m, t)
  {
    TotalUpdate(m, t, b, Removed(t[b], p));
    SetSlotTotal(m, t[b], p, None, 0);
  }

  // ----- the counters -----

  /** What the index size depends on beside the structure: the number of mutexes, the sizes of
      platform-dependent objects, and the bytes that CalculateRecordOverhead returns. */
  datatype Sizes = Sizes(mutexes: nat, platform: Platform, overhead: nat)

  /** The counters agree with the given totals. */
  ghost predicate Agree(k: Counters, records: nat, keyBytes: nat, valueBytes: nat, buckets: nat, linked: nat,
                        longest: nat, z: Sizes) {
    && Complete(k)
    && k[RecordsCount] == records
    && k[TotalKeySize] == keyBytes
    && k[TotalValueSize] == valueBytes
    && k[ChainingEntriesCount] == linked - buckets
    && k[MaxBucketChainLength] == longest
    && k[TotalIndexSize]
       == ENTRY_SIZE * linked + z.overhead * records + z.mutexes * z.platform.mutexSize + z.platform.tableSize
  }

  ghost predicate Exact(k: Counters, t: Table, z: Sizes) {
    Agree(k, Total(Records, t), Total(KeyBytes, t), Total(ValueBytes, t), |t|, LinkedEntries(t), LongestChain(t), z)
  }

  /** WritableHashTable::Stat. */
  datatype Stat = Stat(keySize: nat, valueSize: nat, oldValueSize: nat, chainIndex: nat, isNewEntryAdded: bool)

  function Plus(k: Counters, c: HashTablePerfCounter, n: int): Counters
    requires c in k
  {
    k[c := k[c] + n]
  }

  function AtLeast(k: Counters, c: HashTablePerfCounter, n: int): Counters
    requires c in k
  {
    k[c := if k[c] > n then k[c] else n]
  }

  function AtMost(k: Counters, c: HashTablePerfCounter, n: int): Counters
    requires c in k
  {
    k[c := if k[c] < n then k[c] else n]
  }

  /** The branch of UpdatePerfDataForAdd for a new record. */
  function CountNewRecord(k: Counters, stat: Stat, overhead: nat): Counters
    requires forall c: HashTablePerfCounter :: c in k
  {
    var k2 := CountNewBytes(k, stat, overhead);
    var k3 := Plus(AtLeast(AtMost(k2, MinKeySize, stat.keySize), MaxKeySize, stat.keySize), RecordsCount, 1);
    if stat.isNewEntryAdded then CountNewEntry(k3, stat.chainIndex) else k3
  }

  function CountNewBytes(k: Counters, stat: Stat, overhead: nat): (j: Counters)
    requires forall c: HashTablePerfCounter :: c in k
    ensures forall c: HashTablePerfCounter :: c in j
  {
    var k1 := Plus(Plus(k, TotalKeySize, stat.keySize), TotalValueSize, stat.valueSize);
    Plus(k1, TotalIndexSize, overhead + if stat.isNewEntryAdded then ENTRY_SIZE else 0)
  }

  function CountNewEntry(k: Counters, chainIndex: nat): Counters
    requires forall c: HashTablePerfCounter :: c in k
  {
    var j := Plus(k, ChainingEntriesCount, 1);
    if chainIndex > 1 then AtLeast(j, MaxBucketChainLength, chainIndex) else j
  }

  /** UpdatePerfDataForAdd. A zero old value size is taken for a new record. */
  function CountForAdd(k: Counters, stat: Stat, overhead: nat): Counters
    requires forall c: HashTablePerfCounter :: c in k
  {
    var counted :=
      if stat.oldValueSize != 0 then Plus(k, TotalValueSize, stat.valueSize - stat.oldValueSize)
      else CountNewRecord(k, stat, overhead);
    AtLeast(AtMost(counted, MinValueSize, stat.valueSize), MaxValueSize, stat.valueSize)
  }

  /** UpdatePerfDataForRemove. */
  function CountForRemove(k: Counters, keySize: nat, valueSize: nat, overhead: nat): Counters
    requires forall c: HashTablePerfCounter :: c in k
  {
    Plus(Plus(Plus(Plus(k, RecordsCount, -1), TotalKeySize, 0 - keySize), TotalValueSize, 0 - valueSize),
         TotalIndexSize, 0 - overhead)
  }

  /** What Add has seen when it reaches UpdateRecord: it stops early only at a non-empty old value. */
  function StatFor(c: Chain, p: Pos, r: Record): Stat {
    var previous := match Previous(c, p) case Some(o) => |o.value| case None => 0;
    Stat(|r.key|, |r.value|, previous, if previous != 0 then p.entry + 1 else |Extended(c, p)|, p.entry == |c|)
  }

  ghost predicate OverwritesEmptyValue(c: Chain, p: Pos) {
    Previous(c, p).Some? && Previous(c, p).value.value == []
  }

  lemma ExtendedStructure(t: Table, h: Hash, p: Pos, r: Record)
    requires TableOk(t, h) && IsTarget(t[h.BucketOf(r.key, |t|)], r.key, p)
    ensures var b := h.BucketOf(r.key, |t|);
      var u := t[b := Added(t[b], p, r, h)];
      && |u[b]| == |t[b]| + (if p.entry == |t[b]| then 1 else 0)
      && LinkedEntries(u) == LinkedEntries(t) + (if p.entry == |t[b]| then 1 else 0)
      && LongestChain(u) == (if p.entry == |t[b]| && |t[b]| + 1 > LongestChain(t) then |t[b]| + 1 else LongestChain(t))
      && (p.entry == |t[b]| ==> Previous(t[b], p) == None)
  {
    var b := h.BucketOf(r.key, |t|);
    LinkedEntriesUpdate(t, b, Added(t[b], p, r, h));
    LongestChainUpdate(t, b, Added(t[b], p, r, h));
    LongestIsLongest(t, b);
  }

  lemma {:induction false} LongestIsLongest(t: Table, b: nat)
    requires b < |t|
    ensures |t[b]| <= LongestChain(t)
  {
    if b > 0 {
      LongestIsLongest(t[1..], b - 1);
    }
  }

  lemma {:induction false} LongestIsAttained(t: Table)
    requires t != [] && forall b :: 0 <= b < |t| ==> |t[b]| > 0
    ensures exists b :: 0 <= b < |t| && |t[b]| == LongestChain(t)
  {
    if |t| == 1 {
      assert |t[0]| == LongestChain(t);
    } else {
      LongestIsAttained(t[1..]);
      var b :| 0 <= b < |t[1..]| && |t[1..][b]| == LongestChain(t[1..]);
      assert |t[b + 1]| == LongestChain(t[1..]);
      assert |t[0]| == LongestChain(t) || |t[b + 1]| == LongestChain(t);
    }
  }

  /** The arithmetic of UpdatePerfDataForAdd, on the totals before and after. */
  lemma AgreeAfterAdd(k: Counters, stat: Stat, z: Sizes, gone: Option<Record>,
                      records: nat, keyBytes: nat, valueBytes: nat,
                      records': nat, keyBytes': nat, valueBytes': nat, buckets: nat, linked: nat,
                      longest: nat)
    requires Agree(k, records, keyBytes, valueBytes, buckets, linked, longest, z)
    requires records' + Weight(Records, gone) == records + 1
    requires keyBytes' + Weight(KeyBytes, gone) == keyBytes + stat.keySize
    requires valueBytes' + Weight(ValueBytes, gone) == valueBytes + stat.valueSize
    requires gone.Some? ==> |gone.value.key| == stat.keySize
    requires stat.oldValueSize == Weight(ValueBytes, gone)
    requires stat.isNewEntryAdded ==> gone == None && stat.chainIndex > 1
    ensures Agree(CountForAdd(k, stat, z.overhead), records', keyBytes', valueBytes',
                  buckets, linked + (if stat.isNewEntryAdded then 1 else 0),
                  if stat.isNewEntryAdded && stat.chainIndex > longest then stat.chainIndex else longest, z)
      <==> !(gone.Some? && gone.value.value == [])
  {
    CountersForAdd(k, stat, z.overhead);
    hide CountForAdd;
    assert z.overhead * (records + 1) == z.overhead * records + z.overhead;
  }

  /** Add keeps every counter exact if and only if it does not overwrite an empty value. */
  lemma AddKeepsExact(k: Counters, t: Table, h: Hash, p: Pos, r: Record, z: Sizes)
    requires TableOk(t, h) && IsTarget(t[h.BucketOf(r.key, |t|)], r.key, p) && Exact(k, t, z)
    ensures var b := h.BucketOf(r.key, |t|);
      var j := CountForAdd(k, StatFor(t[b], p, r), z.overhead);
      Exact(j, t[b := Added(t[b], p, r, h)], z) <==> !OverwritesEmptyValue(t[b], p)
  {
    var b := h.BucketOf(r.key, |t|);
    var previous := Previous(t[b], p);
    AddedTotal(Records, t, h, p, r);
    AddedTotal(KeyBytes, t, h, p, r);
    AddedTotal(ValueBytes, t, h, p, r);
    ExtendedStructure(t, h, p, r);
    LongestIsLongest(t, b);
    assert previous.Some? ==> previous.value.key == r.key;
    hide Added, IsTarget, CountForAdd, TableOk, Total, LinkedEntries, LongestChain, Agree;
    var u := t[b := Added(t[b], p, r, h)];
    AgreeAfterAdd(k, StatFor(t[b], p, r), z, previous, Total(Records, t), Total(KeyBytes, t), Total(ValueBytes, t),
                  Total(Records, u), Total(KeyBytes, u), Total(ValueBytes, u), |t|, LinkedEntries(t),
                  LongestChain(t));
  }

  lemma CountersForAdd(k: Counters, stat: Stat, overhead: nat)
    requires Complete(k)
    ensures var j := CountForAdd(k, stat, overhead);
      && Complete(j)
      && j[RecordsCount] == k[RecordsCount] + (if stat.oldValueSize != 0 then 0 else 1)
      && j[TotalKeySize] == k[TotalKeySize] + (if stat.oldValueSize != 0 then 0 else stat.keySize)
      && j[TotalValueSize] == k[TotalValueSize] + stat.valueSize - stat.oldValueSize
      && j[TotalIndexSize]
         == k[TotalIndexSize]
            + (if stat.oldValueSize != 0 then 0 else overhead + if stat.isNewEntryAdded then ENTRY_SIZE else 0)
      && j[ChainingEntriesCount]
        == k[ChainingEntriesCount] + (if stat.oldValueSize == 0 && stat.isNewEntryAdded then 1 else 0)
      && j[MaxBucketChainLength] ==
           if stat.oldValueSize == 0 && stat.isNewEntryAdded && stat.chainIndex > 1
             && stat.chainIndex >= k[MaxBucketChainLength]
           then stat.chainIndex else k[MaxBucketChainLength]
  {
  }

  lemma AgreeAfterRemove(k: Counters, keySize: nat, valueSize: nat, z: Sizes,
                         records: nat, keyBytes: nat, valueBytes: nat, buckets: nat, linked: nat, longest: nat)
    requires Agree(k, records + 1, keyBytes + keySize, valueBytes + valueSize, buckets, linked, longest, z)
    ensures Agree(CountForRemove(k, keySize, valueSize, z.overhead), records, keyBytes, valueBytes, buckets, linked,
                  longest, z)
  {
    assert z.overhead * (records + 1) == z.overhead * records + z.overhead;
  }

  /** Remove keeps every counter exact. */
  lemma RemoveKeepsExact(k: Counters, t: Table, b: nat, p: Pos, z: Sizes)
    requires b < |t| && InChain(t[b], p) && DataAt(t[b], p).Some? && Exact(k, t, z)
    ensures var r := DataAt(t[b], p).value;
      Exact(CountForRemove(k, |r.key|, |r.value|, z.overhead), t[b := Removed(t[b], p)], z)
  {
    var u, r := t[b := Removed(t[b], p)], DataAt(t[b], p).value;
    RemovedTotal(Records, t, b, p);
    RemovedTotal(KeyBytes, t, b, p);
    RemovedTotal(ValueBytes, t, b, p);
    LinkedEntriesUpdate(t, b, Removed(t[b], p));
    LongestChainUpdate(t, b, Removed(t[b], p));
    LongestIsLongest(t, b);
    hide Total, LinkedEntries, LongestChain, SetSlot, Agree, CountForRemove;
    AgreeAfterRemove(k, |r.key|, |r.value|, z, Total(Records, u), Total(KeyBytes, u), Total(ValueBytes, u),
                     |t|, LinkedEntries(u), LongestChain(u));
  }
}
