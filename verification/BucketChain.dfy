/** The value of a bucket: a chain of entries of 16 slots, each slot a tag byte and the record it
    points to, and what it means for such chains to store a map. */
module BucketChain {
  import opened Wrappers

  newtype byte = x: int | 0 <= x < 256

  // The bytes of a Key or Value blob; its size is their number.
  type Blob = seq<byte>

  /** A record buffer in its decoded form; RecordCodec shows that the buffer determines it. */
  datatype Record = Record(key: Blob, value: Blob)

  const SLOTS: nat := 16 // c_numDataPerEntry

  /** MurmurHash3 is any function of the key: its two words choose the bucket and the tag. */
  datatype Hash = Hash(bucketWord: Blob -> nat, tagOf: Blob -> byte) {
    function BucketOf(key: Blob, buckets: nat): (b: nat)
      requires buckets > 0
      ensures b < buckets
    {
      bucketWord(key) % buckets
    }
  }

  lemma BucketIsRemainder(h: Hash, key: Blob, buckets: nat)
    requires buckets > 0
    ensures h.BucketOf(key, buckets) < buckets
    ensures exists q: nat :: h.bucketWord(key) == buckets * q + h.BucketOf(key, buckets)
  {
    var q := h.bucketWord(key) / buckets;
    assert h.bucketWord(key) == buckets * q + h.BucketOf(key, buckets);
  }

  datatype Entry = Entry(tags: seq<byte>, data: seq<Option<Record>>) {
    predicate Ok() {
      |tags| == SLOTS && |data| == SLOTS
    }
  }

  function EmptyEntry(): (e: Entry)
    ensures e.Ok()
  {
    Entry(seq(SLOTS, _ => 0), seq(SLOTS, _ => None))
  }

  /** The entries linked by m_next, in order; a chain cannot be circular. */
  type Chain = seq<Entry>

  ghost predicate ChainOk(c: Chain) {
    |c| > 0 && forall e :: 0 <= e < |c| ==> c[e].Ok()
  }

  datatype Pos = Pos(entry: nat, slot: nat)

  predicate InChain(c: Chain, p: Pos) {
    p.entry < |c| && p.slot < |c[p.entry].tags| && p.slot < |c[p.entry].data|
  }

  function DataAt(c: Chain, p: Pos): Option<Record>
    requires InChain(c, p)
  {
    c[p.entry].data[p.slot]
  }

  function TagAt(c: Chain, p: Pos): byte
    requires InChain(c, p)
  {
    c[p.entry].tags[p.slot]
  }

  predicate Holds(c: Chain, p: Pos, key: Blob) {
    InChain(c, p) && DataAt(c, p).Some? && DataAt(c, p).value.key == key
  }

  predicate Vacant(c: Chain, p: Pos) {
    InChain(c, p) && DataAt(c, p).None?
  }

  /** The order in which a scan visits the slots. */
  predicate Before(p: Pos, q: Pos) {
    p.entry < q.entry || (p.entry == q.entry && p.slot < q.slot)
  }

  // ----- invariants of one bucket -----

  ghost predicate Unique(c: Chain) {
    forall p, q, key :: Holds(c, p, key) && Holds(c, q, key) ==> p == q
  }

  ghost predicate Tagged(c: Chain, h: Hash) {
    forall p :: InChain(c, p) && DataAt(c, p).Some? ==> TagAt(c, p) == h.tagOf(DataAt(c, p).value.key)
  }

  ghost predicate InItsBucket(c: Chain, h: Hash, b: nat, buckets: nat)
    requires buckets > 0
  {
    forall p :: InChain(c, p) && DataAt(c, p).Some? ==> h.BucketOf(DataAt(c, p).value.key, buckets) == b
  }

  ghost predicate BucketOk(c: Chain, h: Hash, b: nat, buckets: nat)
    requires buckets > 0
  {
    ChainOk(c) && Unique(c) && Tagged(c, h) && InItsBucket(c, h, b, buckets)
  }

  // ----- updates -----

  function SetSlot(c: Chain, p: Pos, d: Option<Record>, tag: byte): Chain
    requires InChain(c, p)
  {
    c[p.entry := Entry(c[p.entry].tags[p.slot := tag], c[p.entry].data[p.slot := d])]
  }

  ghost predicate FirstVacant(c: Chain, p: Pos) {
    Vacant(c, p) && forall q :: Vacant(c, q) ==> q == p || Before(p, q)
  }

  /** The slot that Add writes for a key: the one that holds the key, else the first vacant one of
      the whole chain, else the first one of an entry appended to it. */
  ghost predicate IsTarget(c: Chain, key: Blob, p: Pos) {
    || Holds(c, p, key)
    || ((forall q :: !Holds(c, q, key)) && FirstVacant(c, p))
    || ((forall q :: !Holds(c, q, key)) && (forall q :: !Vacant(c, q)) && p == Pos(|c|, 0))
  }

  /** The chain with room for the target. */
  function Extended(c: Chain, p: Pos): Chain {
    if p.entry == |c| then c + [EmptyEntry()] else c
  }

  ghost function Added(c: Chain, p: Pos, r: Record, h: Hash): Chain
    requires ChainOk(c) && IsTarget(c, r.key, p)
  {
    SetSlot(Extended(c, p), p, Some(r), h.tagOf(r.key))
  }

  function Removed(c: Chain, p: Pos): Chain
    requires InChain(c, p)
  {
    SetSlot(c, p, None, 0)
  }

  /** A key has only one target, so the result of Add is determined. */
  lemma TargetIsUnique(c: Chain, key: Blob, p: Pos, q: Pos)
    requires Unique(c) && IsTarget(c, key, p) && IsTarget(c, key, q)
    ensures p == q
  {
  }

  lemma SetSlotAt(c: Chain, p: Pos, d: Option<Record>, tag: byte, q: Pos)
    requires InChain(c, p)
    ensures InChain(SetSlot(c, p, d, tag), q) <==> InChain(c, q)
    ensures InChain(c, q) ==> DataAt(SetSlot(c, p, d, tag), q) == if q == p then d else DataAt(c, q)
    ensures InChain(c, q) ==> TagAt(SetSlot(c, p, d, tag), q) == if q == p then tag else TagAt(c, q)
  {
  }

  lemma ExtendedAt(c: Chain, p: Pos, q: Pos)
    requires ChainOk(c)
    ensures ChainOk(Extended(c, p))
    ensures InChain(c, q) ==>
      InChain(Extended(c, p), q) && DataAt(Extended(c, p), q) == DataAt(c, q) && TagAt(Extended(c, p), q) == TagAt(c, q)
    ensures !InChain(c, q) && InChain(Extended(c, p), q) ==> DataAt(Extended(c, p), q) == None
  {
  }

  /** What the slots hold after Add, whatever the target. */
  lemma AddedAt(c: Chain, p: Pos, r: Record, h: Hash, q: Pos)
    requires ChainOk(c) && IsTarget(c, r.key, p)
    ensures ChainOk(Added(c, p, r, h)) && InChain(Added(c, p, r, h), p)
    ensures DataAt(Added(c, p, r, h), p) == Some(r) && TagAt(Added(c, p, r, h), p) == h.tagOf(r.key)
    ensures q != p && InChain(c, q) ==>
      && InChain(Added(c, p, r, h), q)
      && DataAt(Added(c, p, r, h), q) == DataAt(c, q) && TagAt(Added(c, p, r, h), q) == TagAt(c, q)
    ensures q != p && InChain(Added(c, p, r, h), q) && DataAt(Added(c, p, r, h), q).Some? ==> InChain(c, q)
  {
    ExtendedAt(c, p, q);
    ExtendedAt(c, p, p);
    SetSlotAt(Extended(c, p), p, Some(r), h.tagOf(r.key), q);
  }

  lemma OthersDiffer(c: Chain, key: Blob, p: Pos, q: Pos)
    requires Unique(c) && IsTarget(c, key, p) && q != p
    ensures !Holds(c, q, key)
  {
  }

  lemma AddKeepsBucketOk(c: Chain, p: Pos, r: Record, h: Hash, b: nat, buckets: nat)
    requires buckets > 0 && BucketOk(c, h, b, buckets) && IsTarget(c, r.key, p) && h.BucketOf(r.key, buckets) == b
    ensures BucketOk(Added(c, p, r, h), h, b, buckets)
  {
    var d := Added(c, p, r, h);
    AddedAt(c, p, r, h, p);
    forall q | InChain(d, q) && DataAt(d, q).Some? && q != p
      ensures Holds(c, q, DataAt(d, q).value.key) && DataAt(d, q).value.key != r.key
      ensures TagAt(d, q) == h.tagOf(DataAt(d, q).value.key) && h.BucketOf(DataAt(d, q).value.key, buckets) == b
    {
      AddedAt(c, p, r, h, q);
      OthersDiffer(c, r.key, p, q);
    }
    forall q1, q2, key | Holds(d, q1, key) && Holds(d, q2, key) ensures q1 == q2 {
    }
  }

  lemma RemoveKeepsBucketOk(c: Chain, p: Pos, h: Hash, b: nat, buckets: nat)
    requires buckets > 0 && BucketOk(c, h, b, buckets) && InChain(c, p)
    ensures BucketOk(Removed(c, p), h, b, buckets)
  {
    var d := Removed(c, p);
    forall q | InChain(d, q) && DataAt(d, q).Some?
      ensures Holds(c, q, DataAt(d, q).value.key) && DataAt(d, q) == DataAt(c, q) && TagAt(d, q) == TagAt(c, q)
    {
      SetSlotAt(c, p, None, 0, q);
    }
    forall q1, q2, key | Holds(d, q1, key) && Holds(d, q2, key) ensures q1 == q2 {
      assert Holds(c, q1, key) && Holds(c, q2, key);
    }
  }

  // ----- the whole table as a map -----

  type Table = seq<Chain>

  ghost predicate TableOk(t: Table, h: Hash) {
    |t| > 0 && forall b :: 0 <= b < |t| ==> BucketOk(t[b], h, b, |t|)
  }

  ghost predicate Stores(c: Chain, key: Blob) {
    exists p :: Holds(c, p, key)
  }

  ghost predicate Represents(t: Table, h: Hash, m: map<Blob, Blob>)
    requires |t| > 0
  {
    && (forall b, p :: 0 <= b < |t| && InChain(t[b], p) && DataAt(t[b], p).Some? ==>
          DataAt(t[b], p).value.key in m && m[DataAt(t[b], p).value.key] == DataAt(t[b], p).value.value)
    && (forall key :: key in m ==> Stores(t[h.BucketOf(key, |t|)], key))
  }

  /** A key is looked up in its bucket only, and that is enough. */
  lemma LookupIsExact(t: Table, h: Hash, m: map<Blob, Blob>, key: Blob)
    requires TableOk(t, h) && Represents(t, h, m)
    ensures key in m <==> Stores(t[h.BucketOf(key, |t|)], key)
    ensures forall p :: Holds(t[h.BucketOf(key, |t|)], p, key) ==>
      DataAt(t[h.BucketOf(key, |t|)], p) == Some(Record(key, m[key]))
  {
  }

  /** Add is insertion into the map, overwriting included. */
  lemma AddIsMapUpdate(t: Table, h: Hash, m: map<Blob, Blob>, p: Pos, r: Record)
    requires TableOk(t, h) && Represents(t, h, m) && IsTarget(t[h.BucketOf(r.key, |t|)], r.key, p)
    ensures var b := h.BucketOf(r.key, |t|);
      var u := t[b := Added(t[b], p, r, h)];
      TableOk(u, h) && Represents(u, h, m[r.key := r.value])
  {
    var b := h.BucketOf(r.key, |t|);
    var d := Added(t[b], p, r, h);
    var u := t[b := d];
    var n := m[r.key := r.value];
    AddKeepsBucketOk(t[b], p, r, h, b, |t|);
    AddedAt(t[b], p, r, h, p);
    forall b', q | 0 <= b' < |u| && InChain(u[b'], q) && DataAt(u[b'], q).Some?
      ensures DataAt(u[b'], q).value.key in n && n[DataAt(u[b'], q).value.key] == DataAt(u[b'], q).value.value
    {
      AddedElsewhere(t, h, p, r, b', q);
    }
    forall key | key in n ensures Stores(u[h.BucketOf(key, |u|)], key) {
      if key == r.key {
        assert Holds(d, p, key);
      } else {
        var q :| Holds(t[h.BucketOf(key, |t|)], q, key);
        AddedAt(t[b], p, r, h, q);
        assert Holds(u[h.BucketOf(key, |u|)], q, key);
      }
    }
  }

  lemma AddedElsewhere(t: Table, h: Hash, p: Pos, r: Record, b': nat, q: Pos)
    requires TableOk(t, h) && IsTarget(t[h.BucketOf(r.key, |t|)], r.key, p)
    requires b' < |t|
    ensures var b := h.BucketOf(r.key, |t|);
      var u := t[b := Added(t[b], p, r, h)];
      InChain(u[b'], q) && DataAt(u[b'], q).Some? ==>
        if b' == b && q == p then DataAt(u[b'], q) == Some(r)
        else InChain(t[b'], q) && DataAt(t[b'], q) == DataAt(u[b'], q) && DataAt(t[b'], q).value.key != r.key
  {
    var b := h.BucketOf(r.key, |t|);
    AddedAt(t[b], p, r, h, q);
    AddedAt(t[b], p, r, h, p);
    if b' != b {
      assert BucketOk(t[b'], h, b', |t|);
    } else if q != p {
      OthersDiffer(t[b], r.key, p, q);
    }
  }

  /** Remove is deletion from the map. */
  lemma RemoveIsMapDeletion(t: Table, h: Hash, m: map<Blob, Blob>, b: nat, p: Pos)
    requires TableOk(t, h) && Represents(t, h, m) && b < |t| && InChain(t[b], p) && DataAt(t[b], p).Some?
    ensures var u := t[b := Removed(t[b], p)];
      TableOk(u, h) && Represents(u, h, m - {DataAt(t[b], p).value.key})
  {
    var key := DataAt(t[b], p).value.key;
    var d := Removed(t[b], p);
    var u := t[b := d];
    var n := m - {key};
    RemoveKeepsBucketOk(t[b], p, h, b, |t|);
    forall b', q | 0 <= b' < |u| && InChain(u[b'], q) && DataAt(u[b'], q).Some?
      ensures InChain(t[b'], q) && DataAt(t[b'], q) == DataAt(u[b'], q) && DataAt(u[b'], q).value.key != key
    {
      SetSlotAt(t[b], p, None, 0, q);
      assert BucketOk(t[b'], h, b', |t|);
      assert Holds(t[b'], q, DataAt(u[b'], q).value.key) && Holds(t[b], p, key);
    }
    forall k | k in n ensures Stores(u[h.BucketOf(k, |u|)], k) {
      var q :| Holds(t[h.BucketOf(k, |t|)], q, k);
      SetSlotAt(t[b], p, None, 0, q);
      assert Holds(u[h.BucketOf(k, |u|)], q, k);
    }
  }
}
