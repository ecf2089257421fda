/** The iterator of ReadWrite/HashTable.h, and the list of records it walks through. */
module TableListing {
  import opened Wrappers
  import opened BucketChain
  import opened Accounting

  /** The records of some slots, in order. */
  function Listed(data: seq<Option<Record>>): seq<Record> {
    if data == [] then [] else (if data[0].Some? then [data[0].value] else []) + Listed(data[1..])
  }

  function ChainRecords(c: Chain): seq<Record> {
    if c == [] then [] else Listed(c[0].data) + ChainRecords(c[1..])
  }

  /** Every stored record, bucket by bucket, along the chains, slot by slot. */
  function TableRecords(t: Table): seq<Record> {
    if t == [] then [] else ChainRecords(t[0]) + TableRecords(t[1..])
  }

  lemma {:induction false} ListedContents(data: seq<Option<Record>>, r: Record)
    ensures r in Listed(data) <==> exists i :: 0 <= i < |data| && data[i] == Some(r)
  {
    if data != [] {
      ListedContents(data[1..], r);
      if i :| 0 <= i < |data[1..]| && data[1..][i] == Some(r) {
        assert data[i + 1] == Some(r);
      }
      if i :| 0 <= i < |data| && data[i] == Some(r) {
        assert i == 0 || data[1..][i - 1] == Some(r);
      }
    }
  }

  ghost predicate StoredIn(c: Chain, r: Record) {
    exists p :: InChain(c, p) && DataAt(c, p) == Some(r)
  }

  lemma StoredInPart(c: Chain, r: Record)
    requires c != []
    ensures StoredIn([c[0]], r) || StoredIn(c[1..], r) ==> StoredIn(c, r)
  {
    if p :| InChain([c[0]], p) && DataAt([c[0]], p) == Some(r) {
      assert InChain(c, p) && DataAt(c, p) == Some(r);
    }
    if p :| InChain(c[1..], p) && DataAt(c[1..], p) == Some(r) {
      assert InChain(c, Pos(p.entry + 1, p.slot)) && DataAt(c, Pos(p.entry + 1, p.slot)) == Some(r);
    }
  }

  lemma StoredInFirst(c: Chain, r: Record)
    requires c != [] && ChainOk(c)
    ensures StoredIn(c, r) <==> StoredIn([c[0]], r) || StoredIn(c[1..], r)
  {
    if p :| InChain(c, p) && DataAt(c, p) == Some(r) {
      if p.entry == 0 {
        assert InChain([c[0]], p) && DataAt([c[0]], p) == Some(r);
      } else {
        assert InChain(c[1..], Pos(p.entry - 1, p.slot)) && DataAt(c[1..], Pos(p.entry - 1, p.slot)) == Some(r);
      }
    }
    StoredInPart(c, r);
  }

  lemma {:induction false} ChainRecordsContents(c: Chain, r: Record)
    requires forall e :: 0 <= e < |c| ==> c[e].Ok()
    ensures r in ChainRecords(c) <==> StoredIn(c, r)
  {
    if c != [] {
      StoredInFirst(c, r);
      ChainRecordsContents(c[1..], r);
      ListedContents(c[0].data, r);
      if i :| 0 <= i < SLOTS && c[0].data[i] == Some(r) {
        assert DataAt([c[0]], Pos(0, i)) == Some(r);
      }
    }
  }

  lemma {:induction false} TableRecordsContents(t: Table, r: Record)
    requires forall b :: 0 <= b < |t| ==> ChainOk(t[b])
    ensures r in TableRecords(t) <==> exists b :: 0 <= b < |t| && StoredIn(t[b], r)
  {
    if t != [] {
      TableRecordsContents(t[1..], r);
      ChainRecordsContents(t[0], r);
      if b :| 0 <= b < |t[1..]| && StoredIn(t[1..][b], r) {
        assert StoredIn(t[b + 1], r);
      }
      if b :| 0 <= b < |t| && StoredIn(t[b], r) {
        assert b == 0 || StoredIn(t[1..][b - 1], r);
      }
    }
  }

  // ----- no key is listed twice -----

  ghost predicate DistinctKeys(rs: seq<Record>) {
    forall i, j :: 0 <= i < j < |rs| ==> rs[i].key != rs[j].key
  }

  lemma DistinctAppend(a: seq<Record>, b: seq<Record>)
    requires DistinctKeys(a) && DistinctKeys(b)
    requires forall x, y :: x in a && y in b ==> x.key != y.key
    ensures DistinctKeys(a + b)
  {
  }

  lemma {:induction false} ListedDistinct(data: seq<Option<Record>>)
    requires forall i, j :: 0 <= i < j < |data| && data[i].Some? && data[j].Some? ==>
      data[i].value.key != data[j].value.key
    ensures DistinctKeys(Listed(data))
  {
    if data != [] {
      ListedDistinct(data[1..]);
      if data[0].Some? {
        forall y | y in Listed(data[1..]) ensures y.key != data[0].value.key {
          ListedContents(data[1..], y);
        }
        DistinctAppend([data[0].value], Listed(data[1..]));
      }
    }
  }

  lemma UniqueTail(c: Chain)
    requires c != [] && Unique(c)
    ensures Unique(c[1..])
  {
    forall p, q, key | Holds(c[1..], p, key) && Holds(c[1..], q, key) ensures p == q {
      assert Holds(c, Pos(p.entry + 1, p.slot), key) && Holds(c, Pos(q.entry + 1, q.slot), key);
    }
  }

  lemma {:induction false} ChainRecordsDistinct(c: Chain)
    requires (forall e :: 0 <= e < |c| ==> c[e].Ok()) && Unique(c)
    ensures DistinctKeys(ChainRecords(c))
  {
    if c != [] {
      UniqueTail(c);
      ChainRecordsDistinct(c[1..]);
      forall i, j | 0 <= i < j < SLOTS && c[0].data[i].Some? && c[0].data[j].Some?
        ensures c[0].data[i].value.key != c[0].data[j].value.key
      {
        assert Holds(c, Pos(0, i), c[0].data[i].value.key) && Holds(c, Pos(0, j), c[0].data[j].value.key);
      }
      ListedDistinct(c[0].data);
      forall x, y | x in Listed(c[0].data) && y in ChainRecords(c[1..]) ensures x.key != y.key {
        ListedContents(c[0].data, x);
        ChainRecordsContents(c[1..], y);
        var i :| 0 <= i < SLOTS && c[0].data[i] == Some(x);
        var p :| InChain(c[1..], p) && DataAt(c[1..], p) == Some(y);
        assert Holds(c, Pos(0, i), x.key) && Holds(c, Pos(p.entry + 1, p.slot), y.key);
      }
      DistinctAppend(Listed(c[0].data), ChainRecords(c[1..]));
    }
  }

  /** Bucket b onwards, in a table of n buckets. */
  lemma {:induction false} BucketsDistinct(t: Table, h: Hash, b: nat)
    requires TableOk(t, h) && b <= |t|
    ensures DistinctKeys(TableRecords(t[b..]))
    decreases |t| - b
  {
    if b < |t| {
      BucketsDistinct(t, h, b + 1);
      ChainRecordsDistinct(t[b]);
      assert t[b..][1..] == t[b + 1..];
      forall x, y | x in ChainRecords(t[b]) && y in TableRecords(t[b + 1..]) ensures x.key != y.key {
        ChainRecordsContents(t[b], x);
        TableRecordsContents(t[b + 1..], y);
        var p :| InChain(t[b], p) && DataAt(t[b], p) == Some(x);
        var b' :| 0 <= b' < |t[b + 1..]| && StoredIn(t[b + 1..][b'], y);
        var q :| InChain(t[b + 1 + b'], q) && DataAt(t[b + 1 + b'], q) == Some(y);
        assert BucketOk(t[b], h, b, |t|) && BucketOk(t[b + 1 + b'], h, b + 1 + b', |t|);
      }
      DistinctAppend(ChainRecords(t[b]), TableRecords(t[b + 1..]));
    }
  }

  /** The map that a list of records with distinct keys stands for. */
  function MapOf(rs: seq<Record>): map<Blob, Blob> {
    if rs == [] then map[] else MapOf(rs[..|rs| - 1])[rs[|rs| - 1].key := rs[|rs| - 1].value]
  }

  lemma {:induction false} MapOfKeys(rs: seq<Record>, key: Blob)
    requires key in MapOf(rs)
    ensures Record(key, MapOf(rs)[key]) in rs
  {
    var front, last := rs[..|rs| - 1], rs[|rs| - 1];
    if key != last.key {
      MapOfKeys(front, key);
    }
  }

  lemma {:induction false} MapOfRecords(rs: seq<Record>, i: nat)
    requires DistinctKeys(rs) && i < |rs|
    ensures rs[i].key in MapOf(rs) && MapOf(rs)[rs[i].key] == rs[i].value
  {
    if i < |rs| - 1 {
      MapOfRecords(rs[..|rs| - 1], i);
    }
  }

  lemma {:induction false} MapOfSize(rs: seq<Record>)
    requires DistinctKeys(rs)
    ensures |MapOf(rs)| == |rs|
  {
    if rs != [] {
      var front, last := rs[..|rs| - 1], rs[|rs| - 1];
      MapOfSize(front);
      NewKey(rs);
      assert MapOf(rs).Keys == MapOf(front).Keys + {last.key};
    }
  }

  lemma NewKey(rs: seq<Record>)
    requires DistinctKeys(rs) && rs != []
    ensures rs[|rs| - 1].key !in MapOf(rs[..|rs| - 1])
  {
    var front, key := rs[..|rs| - 1], rs[|rs| - 1].key;
    assert forall j :: 0 <= j < |front| ==> front[j].key != key;
    if key in MapOf(front) {
      MapOfKeys(front, key);
    }
  }

  lemma SameMap(rs: seq<Record>, m: map<Blob, Blob>)
    requires DistinctKeys(rs)
    requires forall key :: key in m ==> Record(key, m[key]) in rs
    requires forall r :: r in rs ==> r.key in m && m[r.key] == r.value
    ensures MapOf(rs) == m
  {
    forall key | key in m ensures key in MapOf(rs) && MapOf(rs)[key] == m[key] {
      var i :| 0 <= i < |rs| && rs[i] == Record(key, m[key]);
      MapOfRecords(rs, i);
    }
    forall key | key in MapOf(rs) ensures key in m {
      MapOfKeys(rs, key);
    }
  }

  /** The list is the map: every stored key once, with its value, and nothing else. */
  lemma ListingIsTheMap(t: Table, h: Hash, m: map<Blob, Blob>)
    requires TableOk(t, h) && Represents(t, h, m)
    ensures DistinctKeys(TableRecords(t)) && MapOf(TableRecords(t)) == m && |TableRecords(t)| == |m|
  {
    var rs := TableRecords(t);
    assert t[0..] == t;
    BucketsDistinct(t, h, 0);
    MapOfSize(rs);
    forall key | key in m ensures Record(key, m[key]) in rs {
      LookupIsExact(t, h, m, key);
      var b := h.BucketOf(key, |t|);
      var p :| Holds(t[b], p, key);
      assert StoredIn(t[b], Record(key, m[key]));
      TableRecordsContents(t, Record(key, m[key]));
    }
    forall r | r in rs ensures r.key in m && m[r.key] == r.value {
      TableRecordsContents(t, r);
      var b :| 0 <= b < |t| && StoredIn(t[b], r);
    }
    hide TableOk, Represents, TableRecords, DistinctKeys, MapOf;
    SameMap(rs, m);
  }

  lemma {:induction false} ListedCount(data: seq<Option<Record>>)
    ensures |Listed(data)| == SlotTotal(Measure.Records, data)
  {
    if data != [] {
      ListedCount(data[1..]);
    }
  }

  lemma {:induction false} ChainRecordsCount(c: Chain)
    ensures |ChainRecords(c)| == ChainTotal(Measure.Records, c)
  {
    if c != [] {
      ListedCount(c[0].data);
      ChainRecordsCount(c[1..]);
    }
  }

  lemma {:induction false} TableRecordsCount(t: Table)
    ensures |TableRecords(t)| == Total(Measure.Records, t)
  {
    if t != [] {
      ChainRecordsCount(t[0]);
      TableRecordsCount(t[1..]);
    }
  }

  /** The total that RecordsCount is compared with is the size of the map. */
  lemma RecordsTotalIsMapSize(t: Table, h: Hash, m: map<Blob, Blob>)
    requires TableOk(t, h) && Represents(t, h, m)
    ensures Total(Measure.Records, t) == |m|
  {
    ListingIsTheMap(t, h, m);
    TableRecordsCount(t);
  }
}

module TableIterator {
  import opened Wrappers
  import opened BucketChain
  import opened SharedTable
  import opened TableListing

  /** What is still to be visited from slot i of entry e of bucket b, that slot included. */
  ghost function Ahead(t: Table, b: nat, e: nat, i: nat): seq<Record>
    requires b < |t| && e < |t[b]| && i <= |t[b][e].data|
  {
    Listed(t[b][e].data[i..]) + ChainRecords(t[b][e + 1..]) + TableRecords(t[b + 1..])
  }

  lemma AheadOfRecord(t: Table, b: nat, e: nat, i: nat)
    requires b < |t| && e < |t[b]| && i < |t[b][e].data|
    ensures Ahead(t, b, e, i) == (if t[b][e].data[i].Some? then [t[b][e].data[i].value] else []) + Ahead(t, b, e, i + 1)
  {
    assert t[b][e].data[i..][1..] == t[b][e].data[i + 1..];
  }

  lemma AheadOfEntry(t: Table, b: nat, e: nat)
    requires b < |t| && e < |t[b]|
    ensures Ahead(t, b, e, |t[b][e].data|)
      == if e + 1 < |t[b]| then Ahead(t, b, e + 1, 0) else TableRecords(t[b + 1..])
  {
    if e + 1 < |t[b]| {
      assert t[b][e + 1..][1..] == t[b][e + 2..];
      assert t[b][e + 1].data[0..] == t[b][e + 1].data;
    } else {
      assert t[b][e + 1..] == [];
    }
  }

  lemma AheadOfBucket(t: Table, b: nat)
    requires b < |t| && |t[b]| > 0
    ensures TableRecords(t[b..]) == Ahead(t, b, 0, 0)
  {
    assert t[b..][1..] == t[b + 1..];
    assert t[b][0].data[0..] == t[b][0].data;
    assert t[b][0..] == t[b];
  }

  /** A cursor over a table that does not change while it is used. */
  class Iterator {
    const table: SharedHashTable
    var currentBucketIndex: int
    var currentRecordIndex: nat
    var currentEntry: ChainedEntry?
    var currentRecord: Option<Record>
    ghost var e: nat // the position of currentEntry in its chain

    /** The cursor is before the first bucket, on a slot, or past the last bucket. */
    ghost predicate Valid()
      reads this, table, table.buckets, table.entries
    {
      && table.HeapOk() && OnEntry()
      && (currentEntry == null ==> currentBucketIndex == -1 || currentBucketIndex == |table.view|)
      && (currentEntry != null ==> currentRecord == table.view[currentBucketIndex][e].data[currentRecordIndex])
    }

    ghost predicate OnEntry()
      reads this, table
    {
      && |table.chains| == |table.view|
      && -1 <= currentBucketIndex <= |table.view|
      && (currentEntry != null ==>
            && 0 <= currentBucketIndex < |table.view|
            && e < |table.chains[currentBucketIndex]| == |table.view[currentBucketIndex]|
            && table.chains[currentBucketIndex][e] == currentEntry
            && currentRecordIndex < SLOTS == |table.view[currentBucketIndex][e].data|)
    }

    /** The records from the cursor on, the one under it included. */
    ghost function FromHere(): seq<Record>
      requires OnEntry()
      reads this, table
    {
      if currentEntry != null then Ahead(table.view, currentBucketIndex, e, currentRecordIndex)
      else if currentBucketIndex == |table.view| then []
      else TableRecords(table.view[currentBucketIndex + 1..])
    }

    /** The records that MoveNext has yet to yield. */
    ghost function Remaining(): seq<Record>
      requires OnEntry()
      reads this, table
    {
      if currentEntry != null then Ahead(table.view, currentBucketIndex, e, currentRecordIndex + 1) else FromHere()
    }

    constructor (table: SharedHashTable)
      requires table.HeapOk()
      ensures this.table == table && Valid() && Remaining() == TableRecords(table.view)
      ensures currentBucketIndex == -1 && currentEntry == null
    {
      this.table := table;
      currentBucketIndex, currentRecordIndex, currentEntry, currentRecord := -1, 0, null, None;
      e := 0;
      new;
      assert table.view[0..] == table.view;
    }

    method Reset()
      requires Valid()
      modifies this
      ensures Valid() && Remaining() == TableRecords(table.view)
    {
      currentBucketIndex, currentRecordIndex, currentEntry := -1, 0, null;
      assert table.view[0..] == table.view;
    }

    predicate IsEnd()
      reads this
    {
      currentBucketIndex == table.buckets.Length
    }

    method MoveToNextData()
      requires table.HeapOk() && OnEntry() && currentEntry != null
      modifies this`currentRecordIndex, this`currentEntry, this`e
      ensures OnEntry() && FromHere() == old(Remaining())
      ensures currentEntry != null ==> e > old(e) || (e == old(e) && currentRecordIndex > old(currentRecordIndex))
    {
      hide Ahead, TableRecords;
      assert table.LinkedAt(currentBucketIndex, e);
      currentRecordIndex := currentRecordIndex + 1;
      if currentRecordIndex >= SLOTS {
        AheadOfEntry(table.view, currentBucketIndex, e);
        currentRecordIndex := 0;
        currentEntry := currentEntry.next;
        e := e + 1;
        assert currentEntry != null ==> table.LinkedAt(currentBucketIndex, e);
      }
    }

    /** The entry behind the cursor, read. */
    method LoadRecord()
      requires table.HeapOk() && OnEntry() && currentEntry != null
      modifies this`currentRecord
      ensures OnEntry() && FromHere() == old(FromHere())
      ensures currentRecord == table.view[currentBucketIndex][e].data[currentRecordIndex]
      ensures FromHere() == (if currentRecord.Some? then [currentRecord.value] else []) + Remaining()
    {
      hide Ahead, TableRecords;
      assert table.LinkedAt(currentBucketIndex, e);
      currentRecord := currentEntry.dataList[currentRecordIndex];
      AheadOfRecord(table.view, currentBucketIndex, e, currentRecordIndex);
    }

    method MoveToNextBucket()
      requires table.HeapOk() && OnEntry() && currentEntry == null && currentBucketIndex < |table.view|
      modifies this`currentBucketIndex, this`currentRecordIndex, this`currentEntry, this`e
      ensures OnEntry() && FromHere() == old(FromHere())
      ensures currentBucketIndex == old(currentBucketIndex) + 1
      ensures currentEntry == null <==> currentBucketIndex == |table.view|
    {
      hide Ahead;
      currentBucketIndex := currentBucketIndex + 1;
      currentRecordIndex := 0;
      if IsEnd() {
        assert table.view[currentBucketIndex..] == [];
        return;
      }
      currentEntry := table.buckets[currentBucketIndex];
      e := 0;
      AheadOfBucket(table.view, currentBucketIndex);
      assert table.LinkedAt(currentBucketIndex, 0);
    }

    /** The loop of MoveNext: on to the first slot with data at or after the cursor. */
    method SkipToRecord() returns (more: bool)
      requires table.HeapOk() && OnEntry() && currentBucketIndex < |table.view|
      modifies this
      ensures Valid() && (more <==> old(FromHere()) != [])
      ensures more ==> currentEntry != null && currentRecord == Some(old(FromHere())[0])
      ensures Remaining() == if more then old(FromHere())[1..] else []
    {
      hide FromHere, Remaining;
      ghost var ahead := FromHere();
      while true
        invariant OnEntry() && currentBucketIndex < |table.view| && FromHere() == ahead
        decreases |table.view| - currentBucketIndex,
          if currentEntry == null then 0 else |table.view[currentBucketIndex]| - e + 1, SLOTS - currentRecordIndex
      {
        if currentEntry == null {
          MoveToNextBucket();
          if IsEnd() {
            NothingAhead();
            return false;
          }
        } else {
          LoadRecord();
          if currentRecord != None {
            return true;
          }
          MoveToNextData();
        }
      }
    }

    /** One step: the next record of the list, or the end of it. */
    method MoveNext() returns (more: bool)
      requires Valid()
      modifies this
      ensures Valid()
      ensures more <==> old(Remaining()) != []
      ensures more ==> currentEntry != null && currentRecord == Some(old(Remaining())[0])
      ensures Remaining() == if more then old(Remaining())[1..] else []
    {
      if IsEnd() {
        return false;
      }
      if currentEntry != null {
        MoveToNextData();
      }
      hide Ahead, TableRecords;
      more := SkipToRecord();
    }

    lemma NothingAhead()
      requires OnEntry() && currentEntry == null && currentBucketIndex == |table.view|
      ensures FromHere() == [] && Remaining() == []
    {
    }

    predicate IsValid()
      reads this
    {
      !IsEnd() && currentEntry != null && currentRecord.Some?
    }

    /** The record under the cursor is one of the list. */
    lemma CurrentIsListed()
      requires Valid() && IsValid()
      ensures currentRecord.value in TableRecords(table.view)
    {
      var t, b := table.view, currentBucketIndex;
      forall b' | 0 <= b' < |t| ensures ChainOk(t[b']) {
        forall e' | 0 <= e' < |t[b']| ensures t[b'][e'].Ok() {
          assert table.LinkedAt(b', e');
        }
      }
      assert InChain(t[b], Pos(e, currentRecordIndex));
      assert StoredIn(t[b], currentRecord.value);
      TableRecordsContents(t, currentRecord.value);
    }

    /** GetKey and GetValue: the record of the last successful MoveNext, or the exception. */
    method GetRecord() returns (r: Result<Record, string>)
      ensures Valid() && r.Ok? ==> r.value in TableRecords(table.view)
      ensures r == if IsValid() then Ok(currentRecord.value) else Err("HashTableIterator is not correctly used.")
    {
      if !IsValid() {
        return Err("HashTableIterator is not correctly used.");
      }
      r := Ok(currentRecord.value);
      if Valid() {
        CurrentIsListed();
      }
    }
  }

  /** Repeated MoveNext from a fresh cursor yields the list, and so, by ListingIsTheMap, every
      stored record exactly once. */
  method VisitAll(it: Iterator) returns (visited: seq<Record>)
    requires it.Valid()
    modifies it
    ensures it.Valid() && visited == old(it.Remaining()) && it.Remaining() == []
  {
    hide Ahead, TableRecords, Iterator.FromHere, Iterator.Remaining, Iterator.IsValid, SharedHashTable.HeapOk;
    visited := [];
    var more := it.MoveNext();
    while more
      invariant it.Valid()
      invariant more ==> it.currentRecord.Some?
      invariant old(it.Remaining()) == visited + (if more then [it.currentRecord.value] else []) + it.Remaining()
      invariant !more ==> it.Remaining() == []
      decreases |it.Remaining()|, more
    {
      visited := visited + [it.currentRecord.value];
      more := it.MoveNext();
    }
  }
}
