/** The iterator of HashTable/Cache/HashTable.h: the one of the base class without the records that
    are expired at the time it was made. */
module CacheIterator {
  import opened Wrappers
  import opened BucketChain
  import opened SharedTable
  import opened TableListing
  import opened CacheMetadata
  import opened CacheTable
  import Base = TableIterator

  predicate IsUnexpired(r: Record, now: nat, timeToLive: int) {
    |r.value| >= META_SIZE && !IsExpired(r.value, now, timeToLive)
  }

  function Unexpired(rs: seq<Record>, now: nat, timeToLive: int): seq<Record> {
    if rs == [] then []
    else (if IsUnexpired(rs[0], now, timeToLive) then [rs[0]] else []) + Unexpired(rs[1..], now, timeToLive)
  }

  lemma {:induction false} UnexpiredContents(rs: seq<Record>, now: nat, timeToLive: int, r: Record)
    ensures r in Unexpired(rs, now, timeToLive) <==> r in rs && IsUnexpired(r, now, timeToLive)
  {
    if rs != [] {
      UnexpiredContents(rs[1..], now, timeToLive, r);
    }
  }

  lemma {:induction false} UnexpiredDistinct(rs: seq<Record>, now: nat, timeToLive: int)
    requires DistinctKeys(rs)
    ensures DistinctKeys(Unexpired(rs, now, timeToLive))
  {
    if rs != [] {
      UnexpiredDistinct(rs[1..], now, timeToLive);
      forall y | y in Unexpired(rs[1..], now, timeToLive) ensures y.key != rs[0].key {
        UnexpiredContents(rs[1..], now, timeToLive, y);
      }
      DistinctAppend(if IsUnexpired(rs[0], now, timeToLive) then [rs[0]] else [], Unexpired(rs[1..], now, timeToLive));
    }
  }

  /** The filtered list is the part of the map that is not expired, each key once. */
  lemma FilteredListing(t: Table, h: Hash, m: map<Blob, Blob>, latest: map<Blob, Stamped>, now: nat, timeToLive: int)
    requires TableOk(t, h) && Represents(t, h, m) && Sound(m, latest)
    ensures var rs := Unexpired(TableRecords(t), now, timeToLive);
      && DistinctKeys(rs)
      && MapOf(rs) == map key | key in m && !IsExpired(m[key], now, timeToLive) :: m[key]
  {
    var all, n := TableRecords(t), map key | key in m && !IsExpired(m[key], now, timeToLive) :: m[key];
    var rs := Unexpired(all, now, timeToLive);
    ListingIsTheMap(t, h, m);
    UnexpiredDistinct(all, now, timeToLive);
    hide TableOk, Represents, TableRecords, IsExpired, EpochTime, Unexpired;
    forall key | key in n ensures Record(key, n[key]) in rs {
      MapOfKeys(all, key);
      UnexpiredContents(all, now, timeToLive, Record(key, m[key]));
    }
    forall r | r in rs ensures r.key in n && n[r.key] == r.value {
      UnexpiredContents(all, now, timeToLive, r);
      var i :| 0 <= i < |all| && all[i] == r;
      MapOfRecords(all, i);
    }
    SameMap(rs, n);
  }

  ghost predicate AllStamped(rs: seq<Record>) {
    forall r :: r in rs ==> |r.value| >= META_SIZE
  }

  lemma StampedListing(t: Table, h: Hash, m: map<Blob, Blob>, latest: map<Blob, Stamped>)
    requires TableOk(t, h) && Represents(t, h, m) && Sound(m, latest)
    ensures AllStamped(TableRecords(t))
  {
    forall r | r in TableRecords(t) ensures |r.value| >= META_SIZE {
      TableRecordsContents(t, r);
      var b :| 0 <= b < |t| && StoredIn(t[b], r);
    }
  }

  class Iterator {
    const base: Base.Iterator
    const recordTimeToLive: int
    const currentEpochTime: nat

    ghost predicate Valid()
      reads base, base.table, base.table.buckets, base.table.entries
    {
      base.Valid() && AllStamped(base.Remaining())
    }

    ghost function Remaining(): seq<Record>
      requires base.OnEntry()
      reads base, base.table
    {
      Unexpired(base.Remaining(), currentEpochTime, recordTimeToLive)
    }

    constructor (cache: CacheHashTable, currentEpochTime: nat)
      requires cache.Valid()
      ensures Valid() && fresh(base) && base.table == cache.base.table
      ensures this.recordTimeToLive == cache.recordTimeToLive && this.currentEpochTime == currentEpochTime
      ensures Remaining() == Unexpired(TableRecords(cache.base.table.view), currentEpochTime, recordTimeToLive)
    {
      base := new Base.Iterator(cache.base.table);
      recordTimeToLive, this.currentEpochTime := cache.recordTimeToLive, currentEpochTime;
      new;
      StampedListing(cache.base.table.view, cache.base.table.hash, cache.base.table.contents, cache.latest);
    }

    /** On to the next record that is not expired. */
    method MoveNext() returns (more: bool)
      requires Valid()
      modifies base
      ensures Valid()
      ensures more <==> old(Remaining()) != []
      ensures more ==> base.currentRecord == Some(old(Remaining())[0]) && base.currentEntry != null
      ensures more ==> |old(Remaining())[0].value| >= META_SIZE
      ensures Remaining() == if more then old(Remaining())[1..] else []
    {
      hide Base.Iterator.Remaining, Base.Iterator.FromHere, IsExpired, Base.Ahead, TableRecords;
      ghost var ahead := base.Remaining();
      more := base.MoveNext();
      while more
        invariant base.Valid() && AllStamped(ahead)
        invariant more ==> ahead != [] && base.currentRecord == Some(ahead[0]) && base.currentEntry != null
        invariant base.Remaining() == if more then ahead[1..] else []
        invariant more <==> ahead != []
        invariant Unexpired(ahead, currentEpochTime, recordTimeToLive) == old(Remaining())
        decreases |ahead|
      {
        assert ahead[0] in ahead;
        if !IsExpired(base.currentRecord.value.value, currentEpochTime, recordTimeToLive) {
          return true;
        }
        ahead := ahead[1..];
        more := base.MoveNext();
      }
    }

    /** The value behind the metadata. */
    method GetValue() returns (r: Result<Blob, string>)
      requires base.currentRecord.Some? ==> |base.currentRecord.value.value| >= META_SIZE
      ensures base.Valid() && r.Ok? ==>
        exists stored :: stored in TableRecords(base.table.view)
          && |stored.value| >= META_SIZE && r.value == stored.value[META_SIZE..]
      ensures r == if base.IsValid() then Ok(base.currentRecord.value.value[META_SIZE..])
        else Err("HashTableIterator is not correctly used.")
    {
      var record := base.GetRecord();
      if record.Err? {
        return Err(record.error);
      }
      r := Ok(record.value.value[META_SIZE..]);
    }
  }

  /** Repeated MoveNext yields the filtered list, which FilteredListing relates to the map. */
  method VisitAll(it: Iterator) returns (visited: seq<Record>)
    requires it.Valid()
    modifies it.base
    ensures it.Valid() && visited == old(it.Remaining()) && it.Remaining() == []
  {
    hide Iterator.Remaining, Base.Iterator.Remaining, Base.Iterator.FromHere, Base.Iterator.IsValid, AllStamped,
      SharedHashTable.HeapOk, Unexpired;
    visited := [];
    var more := it.MoveNext();
    while more
      invariant it.Valid()
      invariant more ==> it.base.currentRecord.Some?
      invariant old(it.Remaining()) == visited + (if more then [it.base.currentRecord.value] else []) + it.Remaining()
      invariant !more ==> it.Remaining() == []
      decreases |it.Remaining()|, more
    {
      visited := visited + [it.base.currentRecord.value];
      more := it.MoveNext();
    }
  }
}
