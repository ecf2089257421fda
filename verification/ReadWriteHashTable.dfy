/** HashTable/ReadWrite/HashTable.h: look up, insertion and removal over the shared structure. The
    methods run under the lock of their bucket, or without concurrent writers. */
module ReadWriteTable {
  import opened Wrappers
  import opened BucketChain
  import opened PerfCounter
  import opened Accounting
  import opened RecordCodec
  import opened SharedTable

  lemma NoHitNoHold(c: Chain, h: Hash, e: nat, key: Blob)
    requires e < |c| && Tagged(c, h) && c[e].Ok()
    requires forall j :: 0 <= j < SLOTS ==> !Hit(c[e], j, h.tagOf(key), key)
    ensures forall q: Pos :: q.entry == e ==> !Holds(c, q, key)
  {
    forall q: Pos | q.entry == e ensures !Holds(c, q, key) {
      if q.slot < SLOTS {
        assert !Hit(c[e], q.slot, h.tagOf(key), key);
      }
    }
  }

  lemma NothingHeldBefore(c: Chain, h: Hash, e: nat, key: Blob)
    requires e < |c| && Tagged(c, h) && c[e].Ok()
    requires forall j :: 0 <= j < SLOTS ==> !Hit(c[e], j, h.tagOf(key), key)
    requires forall q: Pos :: q.entry < e ==> !Holds(c, q, key)
    ensures forall q: Pos :: q.entry < e + 1 ==> !Holds(c, q, key)
  {
    NoHitNoHold(c, h, e, key);
    hide Holds, Hit, Tagged;
    forall q: Pos | q.entry < e + 1 ensures !Holds(c, q, key) {
      assert q.entry < e || q.entry == e;
    }
  }

  lemma BucketIsOk(t: Table, h: Hash, b: nat)
    requires TableOk(t, h) && b < |t|
    ensures ChainOk(t[b]) && Unique(t[b]) && Tagged(t[b], h)
  {
  }

  // ----- what the scan of Add knows about the first entries of a chain -----

  /** Nothing before entry e holds the key, and the first vacant slot before e, if any, is v. */
  ghost predicate Scanned(c: Chain, key: Blob, e: nat, v: Option<Pos>) {
    && (forall q: Pos :: q.entry < e ==> !Holds(c, q, key))
    && match v
       case None => forall q: Pos :: q.entry < e ==> !Vacant(c, q)
       case Some(p) => p.entry < e && FirstVacant(c, p)
  }

  lemma ScannedEntry(c: Chain, h: Hash, key: Blob, e: nat, v: Option<Pos>, vacant: Option<nat>)
    requires ChainOk(c) && Tagged(c, h) && e < |c| && Scanned(c, key, e, v)
    requires forall j :: 0 <= j < SLOTS ==> !Hit(c[e], j, h.tagOf(key), key)
    requires vacant.Some? ==> v.None? && vacant.value < SLOTS && FirstWithoutData(c[e].data, vacant.value)
    requires vacant.None? && v.None? ==> forall j :: 0 <= j < SLOTS ==> c[e].data[j].Some?
    ensures Scanned(c, key, e + 1, if vacant.Some? then Some(Pos(e, vacant.value)) else v)
  {
    NoHitNoHold(c, h, e, key);
    forall q: Pos | q.entry < e + 1 ensures !Holds(c, q, key) {
      assert q.entry < e || q.entry == e;
    }
  }

  /** What the scan of Add knows before entry e: whether it has appended an entry to the chain, and
      the slot it would write, which is the one that holds the key if it has met the key. */
  ghost predicate ScanKnows(c: Chain, key: Blob, e: nat, grown: bool, matched: bool, target: Option<Pos>) {
    if matched then
      && !grown && target.Some? && target.value.entry < e
      && Holds(c, target.value, key) && DataAt(c, target.value).value.value == []
    else if grown then
      |c| <= e <= |c| + 1 && Scanned(c, key, |c|, None) && target == if e == |c| then None else Some(Pos(|c|, 0))
    else
      e <= |c| && Scanned(c, key, e, target)
  }

  function Grown(c: Chain, grown: bool): Chain {
    if grown then c + [EmptyEntry()] else c
  }

  function NextTarget(e: nat, found: Option<nat>, vacant: Option<nat>, target: Option<Pos>): Option<Pos> {
    if found.Some? then Some(Pos(e, found.value))
    else if vacant.Some? then Some(Pos(e, vacant.value))
    else target
  }

  /** A match is in the original chain, and it is the only one. */
  lemma MatchIsHolder(c: Chain, h: Hash, key: Blob, e: nat, grown: bool, matched: bool, target: Option<Pos>, j: nat)
    requires ChainOk(c) && Unique(c) && ScanKnows(c, key, e, grown, matched, target) && e < |Grown(c, grown)|
    requires Hit(Grown(c, grown)[e], j, h.tagOf(key), key)
    ensures !grown && !matched && Holds(c, Pos(e, j), key)
  {
    if e < |c| {
      assert Holds(c, Pos(e, j), key);
    }
  }

  lemma ScanStep(c: Chain, h: Hash, key: Blob, e: nat, grown: bool, matched: bool, target: Option<Pos>,
                 found: Option<nat>, vacant: Option<nat>)
    requires ChainOk(c) && Unique(c) && Tagged(c, h)
    requires ScanKnows(c, key, e, grown, matched, target) && e < |Grown(c, grown)|
    requires Reported(Grown(c, grown)[e], h.tagOf(key), key, target.None?, found, vacant)
    ensures found.Some? ==> !grown && Holds(c, Pos(e, found.value), key)
    ensures var next := NextTarget(e, found, vacant, target);
      && (found.None? || DataAt(c, Pos(e, found.value)).value.value == [] ==>
            ScanKnows(c, key, e + 1, grown, matched || found.Some?, next))
      && (next.None? && e + 1 == |Grown(c, grown)| ==> !grown && ScanKnows(c, key, e + 1, true, false, None))
  {
    if found.Some? {
      MatchIsHolder(c, h, key, e, grown, matched, target, found.value);
    } else if !matched {
      if grown {
        assert Grown(c, grown)[e].data[0].None?;
      } else {
        ScannedEntry(c, h, key, e, target, vacant);
      }
    }
  }

  /** When the scan is over, the target is the one of the specification. */
  lemma ScanEnds(c: Chain, key: Blob, e: nat, grown: bool, matched: bool, target: Pos, valueSize: nat)
    requires ChainOk(c) && ScanKnows(c, key, e, grown, matched, Some(target)) && e == |Grown(c, grown)|
    ensures IsTarget(c, key, target) && Grown(c, grown) == Extended(c, target)
    ensures StatFor(c, target, Record(key, [])).(valueSize := valueSize) == Stat(|key|, valueSize, 0, e, grown)
  {
  }

  /** Table u is table t without the one slot of bucket b that held the key. */
  ghost predicate RemovedFrom(t: Table, u: Table, b: nat, key: Blob) {
    b < |t| && exists p :: Holds(t[b], p, key) && u == t[b := Removed(t[b], p)]
  }

  /** Every record of the map has sizes that the settings admit. */
  ghost predicate AllAdmitted(z: RecordSerializer, m: map<Blob, Blob>) {
    forall key :: key in m ==> z.Admits(Record(key, m[key]))
  }

  class WritableHashTable {
    const table: SharedHashTable
    const serializer: RecordSerializer

    ghost predicate Valid()
      reads this, table, table.buckets, table.entries, table.perfData
    {
      table.Valid() && AllAdmitted(serializer, table.contents)
    }

    constructor (table: SharedHashTable, serializer: RecordSerializer)
      requires table.Valid() && AllAdmitted(serializer, table.contents)
      ensures this.table == table && this.serializer == serializer && Valid()
    {
      this.table, this.serializer := table, serializer;
    }

    /** The walk along the chain of a bucket in Get and Remove. */
    method Find(key: Blob) returns (entry: ChainedEntry?, i: nat, ghost e: nat)
      requires Valid()
      ensures entry == null <==> key !in table.contents
      ensures entry != null ==> entry in table.entries && i < SLOTS && Hit(entry.View(), i, table.hash.tagOf(key), key)
      ensures var b := table.hash.BucketOf(key, |table.view|);
        entry != null ==> e < |table.chains[b]| && table.chains[b][e] == entry && Holds(table.view[b], Pos(e, i), key)
    {
      ghost var b := table.hash.BucketOf(key, |table.view|);
      var tag := table.hash.tagOf(key);
      LookupIsExact(table.view, table.hash, table.contents, key);
      entry, i, e := table.buckets[table.hash.BucketOf(key, table.buckets.Length)], 0, 0;
      while entry != null
        invariant e <= |table.chains[b]|
        invariant entry == if e < |table.chains[b]| then table.chains[b][e] else null
        invariant forall q: Pos :: q.entry < e ==> !Holds(table.view[b], q, key)
        decreases |table.chains[b]| - e
      {
        assert table.LinkedAt(b, e);
        assert entry.View() == table.view[b][e];
        i := entry.Scan(tag, key);
        if i < SLOTS {
          assert Holds(table.view[b], Pos(e, i), key);
          return;
        }
        forall j | 0 <= j < SLOTS ensures !Hit(table.view[b][e], j, tag, key) {
          assert !Hit(entry.View(), j, tag, key);
        }
        NothingHeldBefore(table.view[b], table.hash, e, key);
        entry := entry.next;
        e := e + 1;
      }
    }

    /** The slot found holds the record of the map. */
    method Get(key: Blob) returns (value: Option<Blob>)
      requires Valid()
      ensures value == if key in table.contents then Some(table.contents[key]) else None
    {
      LookupIsExact(table.view, table.hash, table.contents, key);
      ghost var b := table.hash.BucketOf(key, |table.view|);
      var entry, i, e := Find(key);
      if entry == null {
        return None;
      }
      assert table.LinkedAt(b, e);
      value := Some(entry.dataList[i].value.value);
    }

    /** Takes one record out and returns it for its release to be registered. */
    method RemoveAt(entry: ChainedEntry, i: nat, ghost b: nat, ghost e: nat) returns (released: Record)
      requires Valid() && b < |table.chains| && e < |table.chains[b]| && table.chains[b][e] == entry
      requires InChain(table.view[b], Pos(e, i)) && DataAt(table.view[b], Pos(e, i)).Some?
      modifies table`view, table`contents, entry`tags, entry`dataList, table.perfData
      ensures Valid() && DataAt(old(table.view)[b], Pos(e, i)) == Some(released)
      ensures table.view == old(table.view)[b := Removed(old(table.view)[b], Pos(e, i))]
      ensures table.contents == old(table.contents) - {released.key}
      ensures table.perfData.counters
        == CountForRemove(old(table.perfData.counters), |released.key|, |released.value|,
                          serializer.CalculateRecordOverhead())
    {
      assert table.LinkedAt(b, e);
      RemoveIsMapDeletion(table.view, table.hash, table.contents, b, Pos(e, i));
      ghost var key := DataAt(table.view[b], Pos(e, i)).value.key;
      var oldRecord := table.UpdateRecord(entry, i, None, 0, b, e, table.contents - {key});
      released := oldRecord.value;
      UpdatePerfDataForRemove(|released.key|, |released.value|);
    }

    method UpdatePerfDataForRemove(keySize: nat, valueSize: nat)
      requires Complete(table.perfData.counters)
      modifies table.perfData
      ensures Complete(table.perfData.counters)
      ensures table.perfData.counters
        == CountForRemove(old(table.perfData.counters), keySize, valueSize, serializer.CalculateRecordOverhead())
    {
      table.perfData.Decrement(RecordsCount);
      table.perfData.Subtract(TotalKeySize, keySize);
      table.perfData.Subtract(TotalValueSize, valueSize);
      table.perfData.Subtract(TotalIndexSize, serializer.CalculateRecordOverhead());
    }

    /** Removal deletes the key from the map, and registers the release of exactly the record that
        held it. */
    method Remove(key: Blob) returns (released: Option<Record>)
      requires Valid()
      modifies table`view, table`contents, table.entries, table.perfData
      ensures Valid() && table.contents == old(table.contents) - {key}
      ensures released == if key in old(table.contents) then Some(Record(key, old(table.contents)[key])) else None
      ensures released.Some? ==> RemovedFrom(old(table.view), table.view, Bucket(key), key)
      ensures released.None? ==> table.view == old(table.view)
      ensures table.perfData.counters == match released
        case None => old(table.perfData.counters)
        case Some(r) => CountForRemove(old(table.perfData.counters), |r.key|, |r.value|,
                                       serializer.CalculateRecordOverhead())
    {
      LookupIsExact(table.view, table.hash, table.contents, key);
      ghost var b := Bucket(key);
      var entry, i, e := Find(key);
      if entry == null {
        return None;
      }
      assert table.LinkedAt(b, e);
      ghost var p := Pos(e, i);
      assert Holds(old(table.view)[b], p, key);
      var record := RemoveAt(entry, i, b, e);
      released := Some(record);
    }

    /** GetBucketInfo. */
    ghost function Bucket(key: Blob): (b: nat)
      requires |table.view| > 0
      reads table
      ensures b < |table.view|
    {
      table.hash.BucketOf(key, |table.view|)
    }

    method UpdatePerfDataForAdd(stat: Stat)
      requires Complete(table.perfData.counters)
      modifies table.perfData
      ensures Complete(table.perfData.counters)
      ensures table.perfData.counters
        == CountForAdd(old(table.perfData.counters), stat, serializer.CalculateRecordOverhead())
    {
      hide CountNewRecord;
      if stat.oldValueSize != 0 {
        table.perfData.Add(TotalValueSize, stat.valueSize - stat.oldValueSize);
      } else {
        UpdatePerfDataForNewRecord(stat);
      }
      table.perfData.Min(MinValueSize, stat.valueSize);
      table.perfData.Max(MaxValueSize, stat.valueSize);
    }

    method UpdatePerfDataForNewRecord(stat: Stat)
      requires Complete(table.perfData.counters)
      modifies table.perfData
      ensures Complete(table.perfData.counters)
      ensures table.perfData.counters
        == CountNewRecord(old(table.perfData.counters), stat, serializer.CalculateRecordOverhead())
    {
      hide CountNewEntry, CountNewBytes;
      UpdatePerfDataForNewBytes(stat);
      table.perfData.Min(MinKeySize, stat.keySize);
      table.perfData.Max(MaxKeySize, stat.keySize);
      table.perfData.Increment(RecordsCount);
      if stat.isNewEntryAdded {
        UpdatePerfDataForNewEntry(stat.chainIndex);
      }
    }

    method UpdatePerfDataForNewBytes(stat: Stat)
      requires Complete(table.perfData.counters)
      modifies table.perfData
      ensures Complete(table.perfData.counters)
      ensures table.perfData.counters
        == CountNewBytes(old(table.perfData.counters), stat, serializer.CalculateRecordOverhead())
    {
      table.perfData.Add(TotalKeySize, stat.keySize);
      table.perfData.Add(TotalValueSize, stat.valueSize);
      table.perfData.Add(TotalIndexSize,
                         serializer.CalculateRecordOverhead() + if stat.isNewEntryAdded then ENTRY_SIZE else 0);
    }

    method UpdatePerfDataForNewEntry(chainIndex: nat)
      requires Complete(table.perfData.counters)
      modifies table.perfData
      ensures Complete(table.perfData.counters)
      ensures table.perfData.counters == CountNewEntry(old(table.perfData.counters), chainIndex)
    {
      table.perfData.Increment(ChainingEntriesCount);
      if chainIndex > 1 {
        table.perfData.Max(MaxBucketChainLength, chainIndex);
      }
    }

    /** The scan of Add. It stops at the first match with a non-empty value; a match with an empty
        one is remembered while the scan goes on to the end of the chain. When there is neither a
        match nor a slot without data, the chain grows by one entry. */
    method FindTarget(key: Blob, valueSize: nat) returns (entry: ChainedEntry, i: nat, stat: Stat, ghost p: Pos)
      requires Valid()
      modifies table`view, table`chains, table`entries, table.entries
      ensures table.HeapOk() && fresh(table.entries - old(table.entries)) && old(table.entries) <= table.entries
      ensures IsTarget(old(table.view)[old(Bucket(key))], key, p)
      ensures table.view == old(table.view)[old(Bucket(key)) := Extended(old(table.view)[old(Bucket(key))], p)]
      ensures p.entry < |table.chains[old(Bucket(key))]| && table.chains[old(Bucket(key))][p.entry] == entry
      ensures i == p.slot < SLOTS
      ensures stat == StatFor(old(table.view)[old(Bucket(key))], p, Record(key, [])).(valueSize := valueSize)
    {
      hide ScanKnows, IsTarget, Unique, Tagged, TableOk, AllAdmitted, Represents, StatFor, ChainOk,
        SharedHashTable.HeapOk;
      table.HasBuckets();
      ghost var b, before := Bucket(key), table.view;
      ghost var c := before[b];
      table.BucketAt(b);
      BucketIsOk(before, table.hash, b);
      ghost var target: Option<Pos> := None;
      ghost var matched, e := false, 0;
      StartScan(c, key);
      var curEntry: ChainedEntry? := table.buckets[table.hash.BucketOf(key, table.buckets.Length)];
      var entryToUpdate: ChainedEntry? := null;
      i := 0;
      var oldValueSize, chainIndex, isNewEntryAdded := 0, 0, false;
      while curEntry != null
        invariant table.HeapOk() && fresh(table.entries - old(table.entries)) && old(table.entries) <= table.entries
        invariant table.view == before[b := Grown(c, isNewEntryAdded)]
        invariant b < |table.chains| == |table.view| && chainIndex == e <= |table.chains[b]|
        invariant curEntry == if e < |table.chains[b]| then table.chains[b][e] else null
        invariant entryToUpdate != null <==> target.Some?
        invariant target.Some? ==> target.value.entry < e && table.chains[b][target.value.entry] == entryToUpdate
        invariant target.Some? ==> i == target.value.slot < SLOTS
        invariant target.None? ==> curEntry != null
        invariant oldValueSize == 0 && ScanKnows(c, key, e, isNewEntryAdded, matched, target)
        decreases if isNewEntryAdded || entryToUpdate != null then 0 else 1, |table.chains[b]| - e
      {
        table.BucketAt(b);
        chainIndex := chainIndex + 1;
        var found, vacant, grew, next, size :=
          ScanEntry(curEntry, key, entryToUpdate == null, b, c, e, isNewEntryAdded, matched, target);
        target := NextTarget(e, found, vacant, target);
        if found.Some? {
          entryToUpdate, i, oldValueSize := curEntry, found.value, size;
          matched := true;
          if oldValueSize != 0 {
            p := Pos(e, i);
            entry := curEntry;
            stat := Stat(|key|, valueSize, oldValueSize, chainIndex, isNewEntryAdded);
            FoundIsTarget(c, key, p, valueSize);
            return;
          }
        } else if vacant.Some? {
          entryToUpdate, i := curEntry, vacant.value;
        }
        isNewEntryAdded := isNewEntryAdded || grew;
        curEntry := next;
        e := e + 1;
      }
      table.BucketAt(b);
      p := target.value;
      entry := entryToUpdate;
      stat := Stat(|key|, valueSize, oldValueSize, chainIndex, isNewEntryAdded);
      ScanEnds(c, key, e, isNewEntryAdded, matched, p, valueSize);
    }

    /** An iteration of the scan: what it finds in the entry, the size of the value found, and what is
        known about the chain afterwards. */
    method ScanEntry(entry: ChainedEntry, key: Blob, seeking: bool, ghost b: nat, ghost c: Chain, ghost e: nat,
                     ghost grown: bool, ghost matched: bool, ghost target: Option<Pos>)
      returns (found: Option<nat>, vacant: Option<nat>, grew: bool, next: ChainedEntry?, size: nat)
      requires table.HeapOk() && b < |table.chains| && e < |table.chains[b]| && table.chains[b][e] == entry
      requires ChainOk(c) && Unique(c) && Tagged(c, table.hash) && table.view[b] == Grown(c, grown)
      requires ScanKnows(c, key, e, grown, matched, target) && (seeking <==> target.None?)
      modifies table`view, table`chains, table`entries, entry`next
      ensures table.HeapOk() && fresh(table.entries - old(table.entries)) && old(table.entries) <= table.entries
      ensures table.view == old(table.view)[b := Grown(c, grown || grew)] && !(grown && grew)
      ensures |table.chains| == |old(table.chains)| && old(table.chains)[b] <= table.chains[b]
      ensures |old(table.chains)[b]| == |Grown(c, grown)| && |table.chains[b]| == |Grown(c, grown || grew)|
      ensures next == if e + 1 < |table.chains[b]| then table.chains[b][e + 1] else null
      ensures found.Some? ==> !grown && found.value < SLOTS && Holds(c, Pos(e, found.value), key)
      ensures found.Some? ==> size == |DataAt(c, Pos(e, found.value)).value.value|
      ensures found.None? && vacant.Some? ==> vacant.value < SLOTS
      ensures grew ==> found.None? && seeking
      ensures found.None? || size == 0 ==>
        ScanKnows(c, key, e + 1, grown || grew, matched || found.Some?, NextTarget(e, found, vacant, target))
      ensures NextTarget(e, found, vacant, target).None? ==> next != null
    {
      hide ScanKnows, Unique, Tagged, Hit;
      ghost var x := Grown(c, grown)[e];
      found, vacant, grew, next := VisitEntry(entry, table.hash.tagOf(key), key, seeking, b, e);
      ScanStep(c, table.hash, key, e, grown, matched, target, found, vacant);
      size := 0;
      if found.Some? {
        size := ValueSizeAt(entry, found.value, c, Pos(e, found.value), b);
      }
    }

    method ValueSizeAt(entry: ChainedEntry, i: nat, ghost c: Chain, ghost p: Pos, ghost b: nat) returns (size: nat)
      requires table.HeapOk() && b < |table.chains| && p.entry < |table.chains[b]| && table.chains[b][p.entry] == entry
      requires table.view[b] == c && i == p.slot && InChain(c, p) && DataAt(c, p).Some?
      ensures size == |DataAt(c, p).value.value|
    {
      assert table.LinkedAt(b, p.entry);
      size := |entry.dataList[i].value.value|;
    }

    /** The part of an iteration that touches the structure: the scan of the entry, the growth of the
        chain behind it when nothing has been found up to its end, and the step to the next entry. */
    method VisitEntry(entry: ChainedEntry, tag: byte, key: Blob, seeking: bool, ghost b: nat, ghost e: nat)
      returns (found: Option<nat>, vacant: Option<nat>, grew: bool, next: ChainedEntry?)
      requires table.HeapOk() && b < |table.chains| && e < |table.chains[b]| && table.chains[b][e] == entry
      modifies table`view, table`chains, table`entries, entry`next
      ensures table.HeapOk() && fresh(table.entries - old(table.entries)) && old(table.entries) <= table.entries
      ensures Reported(old(table.view)[b][e], tag, key, seeking, found, vacant)
      ensures grew <==> seeking && found.None? && vacant.None? && e + 1 == |old(table.chains)[b]|
      ensures table.view == old(table.view)[b := Grown(old(table.view)[b], grew)]
      ensures |table.chains| == |old(table.chains)| && old(table.chains)[b] <= table.chains[b]
      ensures next == if e + 1 < |table.chains[b]| then table.chains[b][e + 1] else null
    {
      assert table.LinkedAt(b, e);
      found, vacant := entry.ScanForAdd(tag, key, seeking);
      grew := false;
      if found.None? && seeking && vacant.None? && entry.next == null {
        var added := table.AppendEntry(entry, b);
        grew := true;
      }
      assert table.LinkedAt(b, e);
      next := entry.next;
    }

    lemma FoundIsTarget(c: Chain, key: Blob, p: Pos, valueSize: nat)
      requires Holds(c, p, key) && DataAt(c, p).value.value != []
      ensures IsTarget(c, key, p) && p.entry < |c|
      ensures StatFor(c, p, Record(key, [])).(valueSize := valueSize)
        == Stat(|key|, valueSize, |DataAt(c, p).value.value|, p.entry + 1, false)
    {
    }

    lemma StartScan(c: Chain, key: Blob)
      ensures ScanKnows(c, key, 0, false, false, None)
    {
    }

    /** Add: the record is laid out in a new buffer, read back from it and stored. Nothing changes
        when its sizes are refused. */
    method Add(key: Blob, value: Blob) returns (r: Result<Option<Record>, string>)
      requires Valid() && serializer.WidthsFit() && serializer.metadataSize == 0
      requires |key| < U16 && |value| < U32
      modifies table`view, table`chains, table`entries, table`contents, table.entries, table.perfData
      ensures Valid() && fresh(table.entries - old(table.entries)) && old(table.entries) <= table.entries
      ensures r.Ok? <==>
        && (serializer.fixedKeySize == 0 || |key| == serializer.fixedKeySize)
        && (serializer.fixedValueSize == 0 || |value| == serializer.fixedValueSize)
      ensures r.Ok? ==> table.contents == old(table.contents)[key := value]
      ensures r.Ok? ==> r.value == if key in old(table.contents) then Some(Record(key, old(table.contents)[key]))
        else None
      ensures r.Ok? ==> exists p :: Accounted(old(table.view), table.view, table.hash, Record(key, value), p,
        old(table.perfData.counters), table.perfData.counters, serializer.CalculateRecordOverhead())
      ensures r.Err? ==> table.view == old(table.view) && table.contents == old(table.contents)
      ensures r.Err? ==> table.perfData.counters == old(table.perfData.counters)
    {
      hide TableOk, Represents, CountForAdd, StatFor, AddedTo, AllAdmitted, RecordSerializer.Deserialize,
        RecordSerializer.Layout, RecordSerializer.Complete;
      var buffer := CreateRecordBuffer(serializer, key, value, []);
      if buffer.Err? {
        return Err(buffer.error);
      }
      ReadBack(serializer, key, [], value);
      assert [] + value == value;
      var recordToAdd := serializer.Deserialize(buffer.value[..]);
      var released, p := AddRecord(recordToAdd);
      r := Ok(released);
      assert Accounted(old(table.view), table.view, table.hash, Record(key, value), p,
        old(table.perfData.counters), table.perfData.counters, serializer.CalculateRecordOverhead());
    }

    /** Add of a record that is already in its buffer. The record that was overwritten, if any, is
        returned for its release to be registered. */
    method AddRecord(recordToAdd: Record) returns (released: Option<Record>, ghost p: Pos)
      requires Valid() && serializer.Admits(recordToAdd)
      modifies table`view, table`chains, table`entries, table`contents, table.entries, table.perfData
      ensures Valid() && fresh(table.entries - old(table.entries)) && old(table.entries) <= table.entries
      ensures table.contents == old(table.contents)[recordToAdd.key := recordToAdd.value]
      ensures released == if recordToAdd.key in old(table.contents)
        then Some(Record(recordToAdd.key, old(table.contents)[recordToAdd.key])) else None
      ensures AddedTo(old(table.view), table.view, table.hash, recordToAdd, p)
      ensures table.perfData.counters == CountForAdd(old(table.perfData.counters),
        StatFor(old(table.view)[old(Bucket(recordToAdd.key))], p, recordToAdd), serializer.CalculateRecordOverhead())
    {
      hide IsTarget, Unique, Tagged, InItsBucket, CountForAdd;
      ghost var b, before := Bucket(recordToAdd.key), table.view;
      var entry, i, stat;
      entry, i, stat, p := FindTarget(recordToAdd.key, |recordToAdd.value|);
      AddIsMapUpdate(before, table.hash, table.contents, p, recordToAdd);
      PreviousIsInMap(before, table.hash, table.contents, recordToAdd.key, p);
      hide TableOk, Represents;
      assert stat == StatFor(before[b], p, recordToAdd);
      assert table.LinkedAt(b, p.entry);
      released := table.UpdateRecord(entry, i, Some(recordToAdd), table.hash.tagOf(recordToAdd.key), b, p.entry,
                                     table.contents[recordToAdd.key := recordToAdd.value]);
      assert table.view == before[b := Added(before[b], p, recordToAdd, table.hash)];
      UpdatePerfDataForAdd(stat);
    }
  }

  lemma ReadBack(z: RecordSerializer, key: Blob, meta: Blob, value: Blob)
    requires z.WidthsFit() && z.Accepts(key, value, meta) && |key| < U16 && |meta| + |value| < U32
    ensures z.Complete(z.Layout(key, meta, value))
    ensures z.Deserialize(z.Layout(key, meta, value)) == Record(key, meta + value)
  {
    hide RecordSerializer.Deserialize, RecordSerializer.Layout, RecordSerializer.Complete;
    RoundTrip(z, key, meta, value, []);
    assert z.Layout(key, meta, value) + [] == z.Layout(key, meta, value);
  }

  /** CreateRecordBuffer: sizes that the settings do not admit are refused. For an accepted record the
      buffer is large enough unless the fixed sizes wrap. */
  method CreateRecordBuffer(serializer: RecordSerializer, key: Blob, value: Blob, meta: Blob)
    returns (r: Result<array<byte>, string>)
    requires serializer.Accepts(key, value, meta) ==> serializer.FixedSizesFit()
    ensures r.Ok? <==>
      && (serializer.fixedKeySize == 0 || |key| == serializer.fixedKeySize)
      && (serializer.fixedValueSize == 0 || |value| == serializer.fixedValueSize)
      && |meta| == serializer.metadataSize
    ensures r.Ok? ==> fresh(r.value) && r.value[..] == serializer.Layout(key, meta, value)
  {
    var buffer := new byte[serializer.CalculateBufferSize(|key|, |value|)](_ => 0);
    if serializer.Accepts(key, value, meta) {
      LayoutFillsBuffer(serializer, key, meta, value);
    }
    ghost var before := buffer[..];
    var written := serializer.Serialize(key, value, meta, buffer);
    if written.Err? {
      return Err(written.error);
    }
    assert before[buffer.Length..] == [];
    r := Ok(buffer);
  }

  /** Table u is table t after Add has written the record to its target p. */
  ghost predicate AddedTo(t: Table, u: Table, h: Hash, r: Record, p: Pos) {
    && |t| > 0 && ChainOk(t[h.BucketOf(r.key, |t|)]) && IsTarget(t[h.BucketOf(r.key, |t|)], r.key, p)
    && u == t[h.BucketOf(r.key, |t|) := Added(t[h.BucketOf(r.key, |t|)], p, r, h)]
  }

  /** The structure and the counters after Add of a record at its target. */
  ghost predicate Accounted(t: Table, u: Table, h: Hash, r: Record, p: Pos, k: Counters, j: Counters, overhead: nat) {
    && Complete(k) && AddedTo(t, u, h, r, p)
    && j == CountForAdd(k, StatFor(t[h.BucketOf(r.key, |t|)], p, r), overhead)
  }

  /** The target holds the old value of the key, or nothing if the key is new. */
  lemma PreviousIsInMap(t: Table, h: Hash, m: map<Blob, Blob>, key: Blob, p: Pos)
    requires TableOk(t, h) && Represents(t, h, m) && IsTarget(t[h.BucketOf(key, |t|)], key, p)
    ensures var c := t[h.BucketOf(key, |t|)];
      && ChainOk(c) && ChainOk(Extended(c, p)) && InChain(Extended(c, p), p)
      && Previous(c, p) == DataAt(Extended(c, p), p)
      && Previous(c, p) == if key in m then Some(Record(key, m[key])) else None
  {
    LookupIsExact(t, h, m, key);
    ExtendedAt(t[h.BucketOf(key, |t|)], p, p);
  }
}

/** Runs of Add and Remove, as the contracts of the class describe each call. */
module TableRuns {
  import opened BucketChain
  import opened PerfCounter
  import opened Accounting
  import opened RecordCodec
  import opened ReadWriteTable
  import opened SharedTable
  import opened TableListing

  datatype Op = Add(record: Record) | Remove(key: Blob)

  datatype State = State(table: Table, counters: Counters)

  /** The map that a table stands for. */
  function Apply(m: map<Blob, Blob>, op: Op): map<Blob, Blob> {
    match op
    case Add(r) => m[r.key := r.value]
    case Remove(key) => m - {key}
  }

  function ApplyAll(ops: seq<Op>): map<Blob, Blob> {
    if ops == [] then map[] else Apply(ApplyAll(ops[..|ops| - 1]), ops[|ops| - 1])
  }

  ghost predicate RemovedAndCounted(s: State, u: State, h: Hash, key: Blob, p: Pos, overhead: nat) {
    && |s.table| > 0 && Complete(s.counters)
    && var b := h.BucketOf(key, |s.table|);
       && Holds(s.table[b], p, key)
       && u.table == s.table[b := Removed(s.table[b], p)]
       && u.counters == CountForRemove(s.counters, |key|, |DataAt(s.table[b], p).value.value|, overhead)
  }

  ghost predicate Stepped(s: State, op: Op, u: State, h: Hash, overhead: nat) {
    match op
    case Add(r) => exists p :: Accounted(s.table, u.table, h, r, p, s.counters, u.counters, overhead)
    case Remove(key) =>
      || (exists p :: RemovedAndCounted(s, u, h, key, p, overhead))
      || (|s.table| > 0 && !Stores(s.table[h.BucketOf(key, |s.table|)], key) && u == s)
  }

  /** What the constructor of the table leaves behind. */
  function NewState(s: Setting, p: Platform): State {
    State(seq(s.numBuckets, _ => [EmptyEntry()]),
          InitialCounters()[BucketsCount := s.numBuckets][TotalIndexSize := InitialIndexSize(s, p)])
  }

  /** A run from a new table on. */
  ghost predicate IsRun(states: seq<State>, ops: seq<Op>, h: Hash, s: Setting, z: Sizes) {
    && |states| == |ops| + 1 && s.numBuckets > 0 && states[0] == NewState(s, z.platform)
    && forall i :: 0 <= i < |ops| ==> Stepped(states[i], ops[i], states[i + 1], h, z.overhead)
  }

  /** An Add that replaces a value of no bytes. */
  ghost predicate OverwritesEmpty(m: map<Blob, Blob>, op: Op) {
    op.Add? && op.record.key in m && m[op.record.key] == []
  }

  lemma StepRefinesMap(s: State, op: Op, u: State, h: Hash, z: Sizes, m: map<Blob, Blob>)
    requires TableOk(s.table, h) && Represents(s.table, h, m) && Stepped(s, op, u, h, z.overhead)
    ensures TableOk(u.table, h) && Represents(u.table, h, Apply(m, op))
    ensures Exact(s.counters, s.table, z) ==> (Exact(u.counters, u.table, z) <==> !OverwritesEmpty(m, op))
  {
    hide TableOk, Represents, CountForAdd, CountForRemove, Exact;
    match op
    case Add(r) =>
      var p :| Accounted(s.table, u.table, h, r, p, s.counters, u.counters, z.overhead);
      AddIsMapUpdate(s.table, h, m, p, r);
      PreviousIsInMap(s.table, h, m, r.key, p);
      if Exact(s.counters, s.table, z) {
        AddKeepsExact(s.counters, s.table, h, p, r, z);
      }
    case Remove(key) =>
      LookupIsExact(s.table, h, m, key);
      if p :| RemovedAndCounted(s, u, h, key, p, z.overhead) {
        var b := h.BucketOf(key, |s.table|);
        RemoveIsMapDeletion(s.table, h, m, b, p);
        if Exact(s.counters, s.table, z) {
          RemoveKeepsExact(s.counters, s.table, b, p, z);
        }
      } else {
        assert m - {key} == m;
      }
  }

  /** Every run of Add and Remove behaves like the map. */
  lemma {:induction false} EveryRunRefinesMap(states: seq<State>, ops: seq<Op>, h: Hash, s: Setting, z: Sizes, n: nat)
    requires IsRun(states, ops, h, s, z) && n <= |ops|
    ensures TableOk(states[n].table, h) && Represents(states[n].table, h, ApplyAll(ops[..n]))
  {
    hide TableOk, Represents, Stepped, Exact, EmptyEntry;
    if n > 0 {
      EveryRunRefinesMap(states, ops, h, s, z, n - 1);
      StepRefinesMap(states[n - 1], ops[n - 1], states[n], h, z, ApplyAll(ops[..n - 1]));
      assert ops[..n][..n - 1] == ops[..n - 1];
    } else {
      EmptyTableOk(s.numBuckets, h);
    }
  }

  lemma {:induction false} ExactBeforeEmptyOverwrite(states: seq<State>, ops: seq<Op>, h: Hash, s: Setting, z: Sizes,
                                                     n: nat)
    requires IsRun(states, ops, h, s, z) && IsMutexCount(s, z.mutexes) && n <= |ops|
    requires forall i :: 0 <= i < n ==> !OverwritesEmpty(ApplyAll(ops[..i]), ops[i])
    ensures Exact(states[n].counters, states[n].table, z)
  {
    hide TableOk, Represents, Stepped, Exact, OverwritesEmpty, ApplyAll, EmptyEntry, IsMutexCount;
    if n > 0 {
      ExactBeforeEmptyOverwrite(states, ops, h, s, z, n - 1);
      EveryRunRefinesMap(states, ops, h, s, z, n - 1);
      StepRefinesMap(states[n - 1], ops[n - 1], states[n], h, z, ApplyAll(ops[..n - 1]));
    } else {
      NewTableIsExact(s, z);
    }
  }

  /** The counters of a run are exact after every operation if and only if no operation overwrites
      an empty value; the source takes such an overwrite for a new record. */
  lemma ExactAccounting(states: seq<State>, ops: seq<Op>, h: Hash, s: Setting, z: Sizes)
    requires IsRun(states, ops, h, s, z) && IsMutexCount(s, z.mutexes)
    ensures (forall i :: 0 <= i <= |ops| ==> Exact(states[i].counters, states[i].table, z))
      <==> forall i :: 0 <= i < |ops| ==> !OverwritesEmpty(ApplyAll(ops[..i]), ops[i])
  {
    hide TableOk, Represents, Stepped, Exact, OverwritesEmpty, ApplyAll, IsMutexCount;
    if forall i :: 0 <= i < |ops| ==> !OverwritesEmpty(ApplyAll(ops[..i]), ops[i]) {
      forall i | 0 <= i <= |ops| ensures Exact(states[i].counters, states[i].table, z) {
        ExactBeforeEmptyOverwrite(states, ops, h, s, z, i);
      }
    }
    if forall i :: 0 <= i <= |ops| ==> Exact(states[i].counters, states[i].table, z) {
      forall i | 0 <= i < |ops| ensures !OverwritesEmpty(ApplyAll(ops[..i]), ops[i]) {
        EveryRunRefinesMap(states, ops, h, s, z, i);
        StepRefinesMap(states[i], ops[i], states[i + 1], h, z, ApplyAll(ops[..i]));
      }
    }
  }

  /** What that means for each counter, from the sizes of the map, the entries and the settings. */
  lemma CountersOfRun(states: seq<State>, ops: seq<Op>, h: Hash, s: Setting, z: Sizes, n: nat)
    requires IsRun(states, ops, h, s, z) && IsMutexCount(s, z.mutexes) && n <= |ops|
    requires forall i :: 0 <= i < n ==> !OverwritesEmpty(ApplyAll(ops[..i]), ops[i])
    ensures var t, k, m := states[n].table, states[n].counters, ApplyAll(ops[..n]);
      && Complete(k) && |t| == s.numBuckets && (forall b :: 0 <= b < |t| ==> 1 <= |t[b]| <= k[MaxBucketChainLength])
      && (exists b :: 0 <= b < |t| && |t[b]| == k[MaxBucketChainLength])
      && k[RecordsCount] == |m| && k[TotalKeySize] == Total(KeyBytes, t) && k[TotalValueSize] == Total(ValueBytes, t)
      && k[ChainingEntriesCount] == LinkedEntries(t) - s.numBuckets
      && k[TotalIndexSize] == 152 * LinkedEntries(t) + z.overhead * |m| + z.mutexes * z.platform.mutexSize
                              + z.platform.tableSize
  {
    hide TableOk, Represents, Stepped, OverwritesEmpty, ApplyAll, IsMutexCount, Total, LinkedEntries, LongestChain,
      EmptyEntry;
    ExactBeforeEmptyOverwrite(states, ops, h, s, z, n);
    EveryRunRefinesMap(states, ops, h, s, z, n);
    RecordsTotalIsMapSize(states[n].table, h, ApplyAll(ops[..n]));
    SameBuckets(states, ops, h, s, z, n);
    forall b | 0 <= b < s.numBuckets ensures 1 <= |states[n].table[b]| <= states[n].counters[MaxBucketChainLength] {
      BucketIsOk(states[n].table, h, b);
      LongestIsLongest(states[n].table, b);
    }
    LongestIsAttained(states[n].table);
  }

  lemma {:induction false} SameBuckets(states: seq<State>, ops: seq<Op>, h: Hash, s: Setting, z: Sizes, n: nat)
    requires IsRun(states, ops, h, s, z) && n <= |ops|
    ensures |states[n].table| == s.numBuckets
  {
    if n > 0 {
      SameBuckets(states, ops, h, s, z, n - 1);
      assert Stepped(states[n - 1], ops[n - 1], states[n], h, z.overhead);
    }
  }

  // ----- the smallest and largest sizes -----

  ghost predicate HasSize(ops: seq<Op>, ofKey: bool, n: int) {
    exists op :: op in ops && op.Add? && (if ofKey then |op.record.key| else |op.record.value|) == n
  }

  /** The minima and maxima are those of all records added so far, removed ones included. */
  ghost predicate Extremes(k: Counters, ops: seq<Op>) {
    && Complete(k)
    && (forall n :: HasSize(ops, true, n) ==> k[MinKeySize] <= n <= k[MaxKeySize])
    && (forall n :: HasSize(ops, false, n) ==> k[MinValueSize] <= n <= k[MaxValueSize])
    && (k[MinKeySize] == INT64_MAX || HasSize(ops, true, k[MinKeySize]))
    && (k[MaxKeySize] == 0 || HasSize(ops, true, k[MaxKeySize]))
    && (k[MinValueSize] == INT64_MAX || HasSize(ops, false, k[MinValueSize]))
    && (k[MaxValueSize] == 0 || HasSize(ops, false, k[MaxValueSize]))
  }

  lemma HasSizeNext(ops: seq<Op>, op: Op, ofKey: bool, n: int)
    ensures HasSize(ops + [op], ofKey, n) <==>
      HasSize(ops, ofKey, n) || (op.Add? && (if ofKey then |op.record.key| else |op.record.value|) == n)
  {
    assert op in ops + [op];
  }

  lemma ExtremesAfterAdd(k: Counters, ops: seq<Op>, r: Record, stat: Stat, overhead: nat)
    requires Extremes(k, ops) && stat.keySize == |r.key| && stat.valueSize == |r.value|
    requires stat.oldValueSize != 0 ==> HasSize(ops, true, |r.key|)
    ensures Complete(k) && Extremes(CountForAdd(k, stat, overhead), ops + [Add(r)])
  {
    hide HasSize;
    CountersForAdd(k, stat, overhead);
    forall ofKey, n
      ensures HasSize(ops + [Add(r)], ofKey, n) <==>
        HasSize(ops, ofKey, n) || (if ofKey then |r.key| else |r.value|) == n
    {
      HasSizeNext(ops, Add(r), ofKey, n);
    }
    ExtremeCounters(k, stat, overhead);
    hide CountForAdd;
  }

  lemma ExtremeCounters(k: Counters, stat: Stat, overhead: nat)
    requires Complete(k)
    ensures var j, isNew := CountForAdd(k, stat, overhead), stat.oldValueSize == 0;
      && Complete(j)
      && j[MinKeySize] == (if isNew && stat.keySize <= k[MinKeySize] then stat.keySize else k[MinKeySize])
      && j[MaxKeySize] == (if isNew && stat.keySize >= k[MaxKeySize] then stat.keySize else k[MaxKeySize])
      && j[MinValueSize] == (if stat.valueSize <= k[MinValueSize] then stat.valueSize else k[MinValueSize])
      && j[MaxValueSize] == (if stat.valueSize >= k[MaxValueSize] then stat.valueSize else k[MaxValueSize])
  {
    NewRecordExtremes(k, stat, overhead);
    hide CountNewRecord;
  }

  lemma NewRecordExtremes(k: Counters, stat: Stat, overhead: nat)
    requires Complete(k)
    ensures var j := CountNewRecord(k, stat, overhead);
      && Complete(j) && j[MinValueSize] == k[MinValueSize] && j[MaxValueSize] == k[MaxValueSize]
      && j[MinKeySize] == (if stat.keySize <= k[MinKeySize] then stat.keySize else k[MinKeySize])
      && j[MaxKeySize] == (if stat.keySize >= k[MaxKeySize] then stat.keySize else k[MaxKeySize])
  {
    hide CountNewBytes, CountNewEntry;
    var j := CountNewBytes(k, stat, overhead);
    NewBytesExtremes(k, stat, overhead);
    var i := Plus(AtLeast(AtMost(j, MinKeySize, stat.keySize), MaxKeySize, stat.keySize), RecordsCount, 1);
    NewEntryExtremes(i, stat.chainIndex);
  }

  ghost predicate SameExtremes(k: Counters, j: Counters) {
    && Complete(k) && Complete(j)
    && j[MinKeySize] == k[MinKeySize] && j[MaxKeySize] == k[MaxKeySize]
    && j[MinValueSize] == k[MinValueSize] && j[MaxValueSize] == k[MaxValueSize]
  }

  lemma NewBytesExtremes(k: Counters, stat: Stat, overhead: nat)
    requires Complete(k)
    ensures SameExtremes(k, CountNewBytes(k, stat, overhead))
  {
  }

  lemma NewEntryExtremes(k: Counters, chainIndex: nat)
    requires Complete(k)
    ensures SameExtremes(k, CountNewEntry(k, chainIndex))
  {
  }

  lemma ExtremesAfterRemove(k: Counters, ops: seq<Op>, key: Blob, keySize: nat, valueSize: nat, overhead: nat)
    requires Extremes(k, ops)
    ensures Extremes(k, ops + [Remove(key)])
    ensures Complete(k) && Extremes(CountForRemove(k, keySize, valueSize, overhead), ops + [Remove(key)])
  {
    hide HasSize;
    forall ofKey, n ensures HasSize(ops + [Remove(key)], ofKey, n) <==> HasSize(ops, ofKey, n) {
      HasSizeNext(ops, Remove(key), ofKey, n);
    }
  }

  lemma {:induction false} StoredWasAdded(ops: seq<Op>, key: Blob)
    requires key in ApplyAll(ops)
    ensures HasSize(ops, true, |key|)
  {
    var n := |ops| - 1;
    assert ops == ops[..n] + [ops[n]];
    HasSizeNext(ops[..n], ops[n], true, |key|);
    if !(ops[n].Add? && ops[n].record.key == key) {
      StoredWasAdded(ops[..n], key);
    }
  }

  /** After every operation of every run, empty overwrites included. */
  lemma {:induction false} ExtremesOfRun(states: seq<State>, ops: seq<Op>, h: Hash, s: Setting, z: Sizes, n: nat)
    requires IsRun(states, ops, h, s, z) && n <= |ops|
    ensures Extremes(states[n].counters, ops[..n])
  {
    hide TableOk, Represents, Stepped, HasSize, EmptyEntry;
    if n == 0 {
      NothingAdded();
      assert ops[..0] == [];
    } else {
      ExtremesOfRun(states, ops, h, s, z, n - 1);
      EveryRunRefinesMap(states, ops, h, s, z, n - 1);
      ExtremesOfStep(states[n - 1], ops[n - 1], states[n], h, z.overhead, ops[..n - 1]);
      assert ops[..n] == ops[..n - 1] + [ops[n - 1]];
    }
  }

  lemma NothingAdded()
    ensures Extremes(InitialCounters(), [])
  {
    InitialIsComplete();
  }

  lemma ExtremesOfStep(s: State, op: Op, u: State, h: Hash, overhead: nat, ops: seq<Op>)
    requires TableOk(s.table, h) && Represents(s.table, h, ApplyAll(ops)) && Stepped(s, op, u, h, overhead)
    requires Extremes(s.counters, ops)
    ensures Extremes(u.counters, ops + [op])
  {
    hide TableOk, Represents, CountForAdd, CountForRemove, Extremes, IsTarget, Added, HasSize;
    match op
    case Add(r) =>
      var p :| Accounted(s.table, u.table, h, r, p, s.counters, u.counters, overhead);
      PreviousIsInMap(s.table, h, ApplyAll(ops), r.key, p);
      if r.key in ApplyAll(ops) {
        StoredWasAdded(ops, r.key);
      }
      ExtremesAfterAdd(s.counters, ops, r, StatFor(s.table[h.BucketOf(r.key, |s.table|)], p, r), overhead);
    case Remove(key) =>
      if p :| RemovedAndCounted(s, u, h, key, p, overhead) {
        var b := h.BucketOf(key, |s.table|);
        ExtremesAfterRemove(s.counters, ops, key, |key|, |DataAt(s.table[b], p).value.value|, overhead);
      } else {
        ExtremesAfterRemove(s.counters, ops, key, 0, 0, overhead);
      }
  }

  /** The two states and the operations of a run that overwrites an empty value, from a new table of
      one bucket. */
  function Overwriting(key: Blob, value: Blob): seq<Op> {
    [Add(Record(key, [])), Add(Record(key, value))]
  }

  /** Such runs exist, and the counters are wrong after them. */
  lemma EmptyOverwriteMiscounts(h: Hash, s: Setting, z: Sizes, key: Blob, value: Blob) returns (states: seq<State>)
    requires s.numBuckets == 1 && IsMutexCount(s, z.mutexes)
    ensures IsRun(states, Overwriting(key, value), h, s, z)
    ensures OverwritesEmpty(ApplyAll(Overwriting(key, value)[..1]), Overwriting(key, value)[1])
    ensures !Exact(states[2].counters, states[2].table, z)
  {
    hide TableOk, Represents, Exact, CountForAdd, IsTarget, Added, Stepped, EmptyEntry, ApplyAll, ChainOk,
      IsMutexCount, InitialIndexSize;
    var ops, p, first := Overwriting(key, value), Pos(0, 0), Record(key, []);
    var s0 := NewState(s, z.platform);
    NewTableIsExact(s, z);
    EmptyTableOk(1, h);
    FirstOfEmpty(key);
    InitialIsComplete();
    var s1 := Written(s0, first, p, h, z.overhead);
    WrittenIsStep(s0, first, p, h, z.overhead);
    WrittenHolds(s0, first, p, h, z.overhead);
    var s2 := Written(s1, Record(key, value), p, h, z.overhead);
    states := [s0, s1, s2];
    WrittenIsStep(s1, Record(key, value), p, h, z.overhead);
    assert ops[..1] == [ops[0]];
    AppliedOnce(first);
    StepRefinesMap(s0, ops[0], s1, h, z, map[]);
    StepRefinesMap(s1, ops[1], s2, h, z, map[key := []]);
  }

  lemma AppliedOnce(r: Record)
    ensures ApplyAll([Add(r)]) == map[r.key := r.value]
  {
    assert [Op.Add(r)][..0] == [];
  }

  lemma FirstOfEmpty(key: Blob)
    ensures ChainOk([EmptyEntry()]) && IsTarget([EmptyEntry()], key, Pos(0, 0))
  {
  }

  /** The state after an Add to a table of one bucket. */
  ghost function Written(s: State, r: Record, p: Pos, h: Hash, overhead: nat): State
    requires |s.table| == 1 && ChainOk(s.table[0]) && IsTarget(s.table[0], r.key, p) && Complete(s.counters)
  {
    State([Added(s.table[0], p, r, h)], CountForAdd(s.counters, StatFor(s.table[0], p, r), overhead))
  }

  lemma WrittenHolds(s: State, r: Record, p: Pos, h: Hash, overhead: nat)
    requires |s.table| == 1 && ChainOk(s.table[0]) && IsTarget(s.table[0], r.key, p) && Complete(s.counters)
    ensures IsTarget(Written(s, r, p, h, overhead).table[0], r.key, p)
  {
    AddedAt(s.table[0], p, r, h, p);
    hide Added;
    assert Holds(Written(s, r, p, h, overhead).table[0], p, r.key);
  }

  lemma WrittenIsStep(s: State, r: Record, p: Pos, h: Hash, overhead: nat)
    requires |s.table| == 1 && ChainOk(s.table[0]) && IsTarget(s.table[0], r.key, p) && Complete(s.counters)
    ensures Stepped(s, Add(r), Written(s, r, p, h, overhead), h, overhead)
    ensures Complete(Written(s, r, p, h, overhead).counters) && ChainOk(Written(s, r, p, h, overhead).table[0])
  {
    hide IsTarget, Added, StatFor;
    CountersForAdd(s.counters, StatFor(s.table[0], p, r), overhead);
    AddedAt(s.table[0], p, r, h, p);
    hide CountForAdd;
    var u := Written(s, r, p, h, overhead);
    assert h.BucketOf(r.key, 1) == 0;
    assert u.table == s.table[0 := Added(s.table[0], p, r, h)];
    assert Accounted(s.table, u.table, h, r, p, s.counters, u.counters, overhead);
  }

  // ----- the class runs like this -----

  /** Does the operations of a run on the class, one after the other. */
  method Execute(w: WritableHashTable, ops: seq<Op>, ghost z: Sizes) returns (ghost states: seq<State>)
    requires w.Valid() && w.table.contents == map[]
    requires State(w.table.view, w.table.perfData.counters) == NewState(w.table.setting, z.platform)
    requires z.overhead == w.serializer.CalculateRecordOverhead()
    requires forall op :: op in ops && op.Add? ==> w.serializer.Admits(op.record)
    modifies w.table`view, w.table`chains, w.table`entries, w.table`contents, w.table.entries, w.table.perfData
    ensures w.Valid() && IsRun(states, ops, w.table.hash, w.table.setting, z)
    ensures states[|ops|] == State(w.table.view, w.table.perfData.counters) && w.table.contents == ApplyAll(ops)
  {
    hide TableOk, Represents, Stepped, AllAdmitted, CountForAdd, CountForRemove, NewState;
    states := [State(w.table.view, w.table.perfData.counters)];
    var i := 0;
    while i < |ops|
      invariant 0 <= i <= |ops| && w.Valid() && fresh(w.table.entries - old(w.table.entries))
      invariant IsRun(states, ops[..i], w.table.hash, w.table.setting, z)
      invariant states[i] == State(w.table.view, w.table.perfData.counters) && w.table.contents == ApplyAll(ops[..i])
    {
      ghost var s := states[i];
      ExecuteOne(w, ops[i], z.overhead);
      states := states + [State(w.table.view, w.table.perfData.counters)];
      assert ops[..i + 1][..i] == ops[..i] && ops[..i + 1] == ops[..i] + [ops[i]];
      i := i + 1;
    }
    assert ops[..i] == ops;
  }

  method ExecuteOne(w: WritableHashTable, op: Op, ghost overhead: nat)
    requires w.Valid() && overhead == w.serializer.CalculateRecordOverhead()
    requires op.Add? ==> w.serializer.Admits(op.record)
    modifies w.table`view, w.table`chains, w.table`entries, w.table`contents, w.table.entries, w.table.perfData
    ensures w.Valid() && fresh(w.table.entries - old(w.table.entries))
    ensures w.table.contents == Apply(old(w.table.contents), op)
    ensures Stepped(State(old(w.table.view), old(w.table.perfData.counters)), op,
                    State(w.table.view, w.table.perfData.counters), w.table.hash, overhead)
  {
    hide TableOk, Represents, AllAdmitted, CountForAdd, CountForRemove, AddedTo, StatFor;
    ghost var t, k := w.table.view, w.table.perfData.counters;
    match op {
      case Add(record) =>
        var released, p := w.AddRecord(record);
        AddedIsAccounted(t, w.table.view, w.table.hash, record, p, k, w.table.perfData.counters, overhead);
      case Remove(key) =>
        LookupIsExact(t, w.table.hash, w.table.contents, key);
        var released := w.Remove(key);
        if released.Some? {
          ghost var b := w.table.hash.BucketOf(key, |t|);
          ghost var p :| Holds(t[b], p, key) && w.table.view == t[b := Removed(t[b], p)];
          assert RemovedAndCounted(State(t, k), State(w.table.view, w.table.perfData.counters), w.table.hash, key, p,
                                   overhead);
        }
    }
  }

  lemma AddedIsAccounted(t: Table, u: Table, h: Hash, r: Record, p: Pos, k: Counters, j: Counters, overhead: nat)
    requires Complete(k) && AddedTo(t, u, h, r, p)
    requires j == CountForAdd(k, StatFor(t[h.BucketOf(r.key, |t|)], p, r), overhead)
    ensures Accounted(t, u, h, r, p, k, j, overhead)
  {
  }

  lemma {:induction false} EmptyTotals(m: Measure, t: Table)
    requires forall b :: 0 <= b < |t| ==> t[b] == [EmptyEntry()]
    ensures Total(m, t) == 0 && LinkedEntries(t) == |t| && LongestChain(t) == 1
  {
    hide SlotTotal, EmptyEntry;
    if t != [] {
      EmptyTotal(m);
      assert t[0][1..] == [];
      assert ChainTotal(m, t[0]) == 0;
      EmptyTotals(m, t[1..]);
    }
  }

  /** A newly constructed table starts such a run. */
  lemma NewTableIsExact(s: Setting, z: Sizes)
    requires IsMutexCount(s, z.mutexes)
    ensures Exact(NewState(s, z.platform).counters, NewState(s, z.platform).table, z)
  {
    hide Total, LinkedEntries, LongestChain, EmptyEntry, IsMutexCount, InitialIndexSize;
    var t := NewState(s, z.platform).table;
    InitialIndexSizeIs(s, z.platform);
    EmptyTotals(Records, t);
    EmptyTotals(KeyBytes, t);
    EmptyTotals(ValueBytes, t);
    InitialIsComplete();
  }
}
