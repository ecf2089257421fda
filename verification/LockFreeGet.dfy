/** The look up without locks of ReadWrite/HashTable.h, next to writers that hold the lock of the
    bucket: a machine whose steps are the single loads and stores, in any interleaving. */
module LockFreeGet {
  import opened Wrappers
  import opened BucketChain

  /** Where a Get stands: about to read a tag, the data behind a matching tag, or the link to the next
      entry; or finished. */
  datatype Phase = ReadTag(p: Pos) | ReadData(p: Pos) | ReadNext(e: nat) | Hit(value: Blob) | Miss

  datatype Reader = Reader(key: Blob, at: Phase) {
    predicate Finished() {
      at.Hit? || at.Miss?
    }
  }

  /** The holder of the bucket's lock. Its own scan sees a chain that nobody else changes, so it is
      part of the step that stores the data; Storing is the point between the two stores. */
  datatype Writer =
    | Free
    | Adding(record: Record)
    | Removing(key: Blob)
    | Evicting
    | Storing(p: Pos, tag: byte, goesOn: bool)
    | Done

  datatype State = State(chain: Chain, writer: Writer, readers: map<nat, Reader>)

  datatype Label =
    | BeginGet(id: nat, key: Blob)
    | GetStep(id: nat)
    | LockForAdd(record: Record)
    | LockForRemove(key: Blob)
    | LockForEviction
    | Grow
    | StoreData(p: Pos)
    | StoreTag
    | Unlock

  // ----- steps -----

  /** The next slot of the entry, or its link. */
  function Onward(p: Pos): Phase {
    if p.slot + 1 < SLOTS then ReadTag(Pos(p.entry, p.slot + 1)) else ReadNext(p.entry)
  }

  ghost predicate PhaseOk(c: Chain, at: Phase) {
    match at
    case ReadTag(p) => InChain(c, p)
    case ReadData(p) => InChain(c, p)
    case ReadNext(e) => e < |c|
    case _ => true
  }

  /** One load of a Get, and what it leads to. */
  function Advanced(c: Chain, h: Hash, r: Reader): Phase
    requires PhaseOk(c, r.at)
  {
    match r.at
    case ReadTag(p) => if TagAt(c, p) == h.tagOf(r.key) then ReadData(p) else Onward(p)
    case ReadData(p) =>
      if DataAt(c, p).Some? && DataAt(c, p).value.key == r.key then Phase.Hit(DataAt(c, p).value.value) else Onward(p)
    case ReadNext(e) => if e + 1 < |c| then ReadTag(Pos(e + 1, 0)) else Miss
    case _ => r.at
  }

  ghost predicate NoHolder(c: Chain, key: Blob) {
    forall p :: !Holds(c, p, key)
  }

  ghost predicate Enabled(s: State, l: Label) {
    match l
    case BeginGet(id, _) => |s.chain| > 0 && (id in s.readers ==> s.readers[id].Finished())
    case GetStep(id) => id in s.readers && !s.readers[id].Finished() && PhaseOk(s.chain, s.readers[id].at)
    case LockForAdd(_) => s.writer == Free
    case LockForRemove(_) => s.writer == Free
    case LockForEviction => s.writer == Free
    case Grow => s.writer.Adding? && NoHolder(s.chain, s.writer.record.key) && forall p :: !Vacant(s.chain, p)
    case StoreData(p) =>
      && InChain(s.chain, p)
      && (match s.writer
          case Adding(r) => Holds(s.chain, p, r.key) || (NoHolder(s.chain, r.key) && FirstVacant(s.chain, p))
          case Removing(key) => Holds(s.chain, p, key)
          case Evicting => DataAt(s.chain, p).Some?
          case _ => false)
    case StoreTag => s.writer.Storing? && InChain(s.chain, s.writer.p)
    case Unlock => s.writer.Done? || s.writer.Evicting? || (s.writer.Removing? && NoHolder(s.chain, s.writer.key))
  }

  function Stored(s: State, p: Pos, h: Hash): State
    requires InChain(s.chain, p)
  {
    var data := if s.writer.Adding? then Some(s.writer.record) else None;
    var tag := if s.writer.Adding? then h.tagOf(s.writer.record.key) else 0;
    s.(chain := SetSlot(s.chain, p, data, TagAt(s.chain, p)), writer := Storing(p, tag, s.writer.Evicting?))
  }

  ghost function After(s: State, l: Label, h: Hash): State
    requires Enabled(s, l)
  {
    match l
    case BeginGet(id, key) => s.(readers := s.readers[id := Reader(key, ReadTag(Pos(0, 0)))])
    case GetStep(id) => s.(readers := s.readers[id := s.readers[id].(at := Advanced(s.chain, h, s.readers[id]))])
    case LockForAdd(r) => s.(writer := Adding(r))
    case LockForRemove(key) => s.(writer := Removing(key))
    case LockForEviction => s.(writer := Evicting)
    case Grow => s.(chain := s.chain + [EmptyEntry()])
    case StoreData(p) => Stored(s, p, h)
    case StoreTag =>
      s.(chain := SetSlot(s.chain, s.writer.p, DataAt(s.chain, s.writer.p), s.writer.tag),
         writer := if s.writer.goesOn then Evicting else Done)
    case Unlock => s.(writer := Free)
  }

  ghost predicate IsRun(states: seq<State>, labels: seq<Label>, h: Hash) {
    && |states| == |labels| + 1
    && states[0] == State([EmptyEntry()], Free, map[])
    && forall k :: 0 <= k < |labels| ==>
      Enabled(states[k], labels[k]) && states[k + 1] == After(states[k], labels[k], h)
  }

  // ----- what every step keeps -----

  function SettledTag(d: Option<Record>, h: Hash): byte {
    match d
    case None => 0
    case Some(r) => h.tagOf(r.key)
  }

  /** Outside the two stores of an update, the tag of a slot is the one of its data. */
  ghost predicate SlotSettled(s: State, h: Hash, p: Pos) {
    InChain(s.chain, p) && !(s.writer.Storing? && s.writer.p == p) ==>
      TagAt(s.chain, p) == SettledTag(DataAt(s.chain, p), h)
  }

  /** Between them the new tag is known, and a new record finds either its own tag or none. */
  ghost predicate StoringOk(s: State, h: Hash) {
    s.writer.Storing? ==>
      && InChain(s.chain, s.writer.p)
      && s.writer.tag == SettledTag(DataAt(s.chain, s.writer.p), h)
      && (DataAt(s.chain, s.writer.p).Some? ==> TagAt(s.chain, s.writer.p) in {0, s.writer.tag})
  }

  ghost predicate Inv(s: State, h: Hash) {
    && ChainOk(s.chain) && Unique(s.chain)
    && (forall p :: SlotSettled(s, h, p))
    && StoringOk(s, h)
    && forall id :: id in s.readers ==> PhaseOk(s.chain, s.readers[id].at)
  }

  lemma StoreDataKeepsInv(s: State, p: Pos, h: Hash)
    requires Inv(s, h) && Enabled(s, StoreData(p))
    ensures Inv(After(s, StoreData(p), h), h)
  {
    var t := After(s, StoreData(p), h);
    forall q ensures SlotSettled(t, h, q) {
      SetSlotAt(s.chain, p, DataAt(t.chain, p), TagAt(s.chain, p), q);
      assert SlotSettled(s, h, q);
    }
    assert SlotSettled(s, h, p);
    forall q, r, key | Holds(t.chain, q, key) && Holds(t.chain, r, key) ensures q == r {
      assert q != p ==> Holds(s.chain, q, key);
      assert r != p ==> Holds(s.chain, r, key);
    }
  }

  lemma StoreTagKeepsInv(s: State, h: Hash)
    requires Inv(s, h) && Enabled(s, StoreTag)
    ensures Inv(After(s, StoreTag, h), h)
  {
    var t, p := After(s, StoreTag, h), s.writer.p;
    forall q ensures SlotSettled(t, h, q) {
      SetSlotAt(s.chain, p, DataAt(s.chain, p), s.writer.tag, q);
      assert SlotSettled(s, h, q);
    }
    forall q, r, key | Holds(t.chain, q, key) && Holds(t.chain, r, key) ensures q == r {
      assert Holds(s.chain, q, key) && Holds(s.chain, r, key);
    }
  }

  lemma GrowKeepsInv(s: State, h: Hash)
    requires Inv(s, h) && Enabled(s, Grow)
    ensures Inv(After(s, Grow, h), h)
  {
    var t := After(s, Grow, h);
    forall q ensures SlotSettled(t, h, q) {
      assert SlotSettled(s, h, q);
    }
    forall q, r, key | Holds(t.chain, q, key) && Holds(t.chain, r, key) ensures q == r {
      assert Holds(s.chain, q, key) && Holds(s.chain, r, key);
    }
  }

  lemma StepKeepsInv(s: State, l: Label, h: Hash)
    requires Inv(s, h) && Enabled(s, l)
    ensures Inv(After(s, l, h), h)
  {
    match l
    case Grow => GrowKeepsInv(s, h);
    case StoreData(p) => StoreDataKeepsInv(s, p, h);
    case StoreTag => StoreTagKeepsInv(s, h);
    case _ =>
      var t := After(s, l, h);
      forall q ensures SlotSettled(t, h, q) {
        assert SlotSettled(s, h, q);
      }
  }

  /** In every reachable state each key is in at most one slot, and every tag is settled but the one
      that is about to be stored. */
  lemma {:induction false} EveryRunKeepsInv(states: seq<State>, labels: seq<Label>, h: Hash, n: nat)
    requires IsRun(states, labels, h) && n <= |labels|
    ensures Inv(states[n], h)
  {
    if n > 0 {
      EveryRunKeepsInv(states, labels, h, n - 1);
      hide Inv, Enabled, After;
      StepKeepsInv(states[n - 1], labels[n - 1], h);
    }
  }

  // ----- the writer of the machine is the one of the table -----

  /** The steps of an Add, once it holds the lock, are enabled for its target and add up to Added. */
  lemma AddingIsAdded(s: State, h: Hash, p: Pos)
    requires Inv(s, h) && s.writer.Adding? && IsTarget(s.chain, s.writer.record.key, p)
    ensures p.entry == |s.chain| ==> Enabled(s, Grow)
    ensures var g := if p.entry == |s.chain| then After(s, Grow, h) else s;
      && Enabled(g, StoreData(p)) && Enabled(After(g, StoreData(p), h), StoreTag)
      && After(After(g, StoreData(p), h), StoreTag, h)
         == s.(chain := Added(s.chain, p, s.writer.record, h), writer := Done)
  {
    var g := if p.entry == |s.chain| then After(s, Grow, h) else s;
    ExtendedAt(s.chain, p, p);
    if p.entry == |s.chain| {
      forall q ensures !Holds(g.chain, q, s.writer.record.key) && (Vacant(g.chain, q) ==> q == p || Before(p, q)) {
        ExtendedAt(s.chain, p, q);
        assert InChain(s.chain, q) ==> !Vacant(s.chain, q) && !Holds(s.chain, q, s.writer.record.key);
      }
    }
    TwoStores(g.chain, p, Some(s.writer.record), h.tagOf(s.writer.record.key));
  }

  /** Those of a Remove add up to Removed. */
  lemma RemovingIsRemoved(s: State, h: Hash, p: Pos)
    requires Inv(s, h) && s.writer.Removing? && Holds(s.chain, p, s.writer.key)
    ensures Enabled(s, StoreData(p)) && Enabled(After(s, StoreData(p), h), StoreTag)
    ensures After(After(s, StoreData(p), h), StoreTag, h) == s.(chain := Removed(s.chain, p), writer := Done)
  {
    TwoStores(s.chain, p, None, 0);
  }

  /** An eviction removes one record after the other under the same lock. */
  lemma EvictingIsRemoved(s: State, h: Hash, p: Pos)
    requires Inv(s, h) && s.writer.Evicting? && InChain(s.chain, p) && DataAt(s.chain, p).Some?
    ensures Enabled(s, StoreData(p)) && Enabled(After(s, StoreData(p), h), StoreTag)
    ensures After(After(s, StoreData(p), h), StoreTag, h) == s.(chain := Removed(s.chain, p))
  {
    TwoStores(s.chain, p, None, 0);
  }

  lemma FirstVacantExists(c: Chain, p: Pos)
    requires Vacant(c, p)
    ensures exists q :: FirstVacant(c, q)
    decreases p.entry, p.slot
  {
    if q :| Vacant(c, q) && Before(q, p) {
      FirstVacantExists(c, q);
    } else {
      forall q | Vacant(c, q) ensures q == p || Before(p, q) {
        assert !Before(q, p);
      }
      assert FirstVacant(c, p);
    }
  }

  /** The holder of the lock can always go on, or give the lock back. */
  lemma WriterIsNeverBlocked(s: State, h: Hash) returns (l: Label)
    requires Inv(s, h) && s.writer != Free
    ensures Enabled(s, l) && (l.Grow? || l.StoreData? || l.StoreTag? || l.Unlock?)
    ensures l.Unlock? <==>
      s.writer.Done? || s.writer.Evicting? || (s.writer.Removing? && NoHolder(s.chain, s.writer.key))
  {
    match s.writer
    case Adding(r) =>
      if p :| Holds(s.chain, p, r.key) {
        l := StoreData(p);
      } else if v :| Vacant(s.chain, v) {
        FirstVacantExists(s.chain, v);
        var p :| FirstVacant(s.chain, p);
        l := StoreData(p);
      } else {
        l := Grow;
      }
    case Removing(key) =>
      if p :| Holds(s.chain, p, key) {
        l := StoreData(p);
      } else {
        l := Unlock;
      }
    case Storing(_, _, _) => l := StoreTag;
    case _ => l := Unlock;
  }

  lemma TwoStores(c: Chain, p: Pos, d: Option<Record>, tag: byte)
    requires InChain(c, p)
    ensures var half := SetSlot(c, p, d, TagAt(c, p));
      InChain(half, p) && SetSlot(half, p, DataAt(half, p), tag) == SetSlot(c, p, d, tag)
  {
    var x := c[p.entry];
    assert x.data[p.slot := d][p.slot := d] == x.data[p.slot := d];
    assert x.tags[p.slot := TagAt(c, p)][p.slot := tag] == x.tags[p.slot := tag];
  }

  // ----- calls of Get -----

  /** Reader id starts a Get for the key with step i and has started no other one up to state j. */
  ghost predicate CallOf(labels: seq<Label>, id: nat, key: Blob, i: nat, j: nat) {
    && i < j <= |labels| && labels[i] == BeginGet(id, key)
    && forall k :: i < k < j ==> !(labels[k].BeginGet? && labels[k].id == id)
  }

  /** Both parts of the slot are in place for a reader that looks for the key. */
  predicate Published(c: Chain, h: Hash, p: Pos, key: Blob) {
    Holds(c, p, key) && TagAt(c, p) == h.tagOf(key)
  }

  ghost predicate SomewherePublished(c: Chain, h: Hash, key: Blob) {
    exists p :: Published(c, h, p, key)
  }

  ghost predicate Held(c: Chain, key: Blob, value: Blob) {
    exists p :: InChain(c, p) && DataAt(c, p) == Some(Record(key, value))
  }

  lemma {:induction false} CallKeepsKey(states: seq<State>, labels: seq<Label>, h: Hash, id: nat, key: Blob, i: nat,
                                        n: nat)
    requires IsRun(states, labels, h) && CallOf(labels, id, key, i, n)
    ensures id in states[n].readers && states[n].readers[id].key == key
  {
    assert states[n] == After(states[n - 1], labels[n - 1], h);
    if n - 1 > i {
      CallKeepsKey(states, labels, h, id, key, i, n - 1);
    }
  }

  /** A hit returns a value that a slot held for the key at an instant of the call. */
  lemma {:induction false} HitIsRegular(states: seq<State>, labels: seq<Label>, h: Hash, id: nat, key: Blob, i: nat,
                                        n: nat)
    requires IsRun(states, labels, h) && CallOf(labels, id, key, i, n)
    ensures id in states[n].readers && states[n].readers[id].key == key
    ensures states[n].readers[id].at.Hit? ==>
      exists k :: i < k <= n && Held(states[k].chain, key, states[n].readers[id].at.value)
  {
    CallKeepsKey(states, labels, h, id, key, i, n);
    var s, l := states[n - 1], labels[n - 1];
    assert states[n] == After(s, l, h);
    if n - 1 > i && states[n].readers[id].at.Hit? {
      HitIsRegular(states, labels, h, id, key, i, n - 1);
      if l == GetStep(id) {
        assert Held(states[n - 1].chain, key, states[n].readers[id].at.value);
      }
    }
  }

  /** The reader has not passed slot p yet. */
  predicate NotPassed(at: Phase, p: Pos) {
    match at
    case ReadTag(q) => q == p || Before(q, p)
    case ReadData(q) => q == p || Before(q, p)
    case ReadNext(e) => e < p.entry
    case Hit(_) => true
    case Miss => false
  }

  /** A key that stays published does not move. */
  lemma PublishedStays(s: State, l: Label, h: Hash, p: Pos, q: Pos, key: Blob)
    requires Inv(s, h) && Enabled(s, l)
    requires Published(s.chain, h, p, key) && Published(After(s, l, h).chain, h, q, key)
    ensures p == q
  {
    match l
    case StoreData(r) =>
      SetSlotAt(s.chain, r, DataAt(After(s, l, h).chain, r), TagAt(s.chain, r), q);
      assert q == r || Holds(s.chain, q, key);
    case StoreTag =>
      SetSlotAt(s.chain, s.writer.p, DataAt(s.chain, s.writer.p), s.writer.tag, q);
      assert Holds(s.chain, q, key);
    case Grow =>
      assert Holds(s.chain, q, key);
    case _ =>
      assert Holds(s.chain, q, key);
  }

  /** A reader does not step over a slot in which its key is published. */
  lemma ReaderStops(c: Chain, h: Hash, r: Reader, p: Pos)
    requires ChainOk(c) && PhaseOk(c, r.at) && Published(c, h, p, r.key) && NotPassed(r.at, p)
    ensures NotPassed(Advanced(c, h, r), p)
  {
  }

  lemma StepKeepsAhead(s: State, l: Label, h: Hash, id: nat, p: Pos)
    requires Inv(s, h) && Enabled(s, l) && id in s.readers
    requires Published(s.chain, h, p, s.readers[id].key) && NotPassed(s.readers[id].at, p)
    requires !(l.BeginGet? && l.id == id)
    ensures id in After(s, l, h).readers && NotPassed(After(s, l, h).readers[id].at, p)
  {
    if l == GetStep(id) {
      ReaderStops(s.chain, h, s.readers[id], p);
    }
  }

  lemma StartsAhead(s: State, h: Hash, id: nat, key: Blob, p: Pos)
    requires Enabled(s, BeginGet(id, key))
    ensures NotPassed(After(s, BeginGet(id, key), h).readers[id].at, p)
  {
  }

  lemma {:induction false} KeyAhead(states: seq<State>, labels: seq<Label>, h: Hash, id: nat, key: Blob, i: nat,
                                    n: nat, p: Pos)
    requires IsRun(states, labels, h) && CallOf(labels, id, key, i, n)
    requires forall k :: i < k <= n ==> SomewherePublished(states[k].chain, h, key)
    requires Published(states[n].chain, h, p, key)
    ensures id in states[n].readers && states[n].readers[id].key == key && NotPassed(states[n].readers[id].at, p)
  {
    hide Enabled, After, Inv, Published, NotPassed;
    CallKeepsKey(states, labels, h, id, key, i, n);
    var s, l := states[n - 1], labels[n - 1];
    assert Enabled(s, l) && states[n] == After(s, l, h);
    if n - 1 == i {
      StartsAhead(s, h, id, key, p);
    } else {
      var q :| Published(s.chain, h, q, key);
      EveryRunKeepsInv(states, labels, h, n - 1);
      PublishedStays(s, l, h, q, p, key);
      KeyAhead(states, labels, h, id, key, i, n - 1, p);
      StepKeepsAhead(s, l, h, id, p);
    }
  }

  /** A miss means that at some instant of the call the key was in no slot with data and tag. */
  lemma MissIsRegular(states: seq<State>, labels: seq<Label>, h: Hash, id: nat, key: Blob, i: nat, n: nat)
    requires IsRun(states, labels, h) && CallOf(labels, id, key, i, n)
    ensures id in states[n].readers && states[n].readers[id].key == key
    ensures states[n].readers[id].at.Miss? ==> exists k :: i < k <= n && !SomewherePublished(states[k].chain, h, key)
  {
    CallKeepsKey(states, labels, h, id, key, i, n);
    if forall k :: i < k <= n ==> SomewherePublished(states[k].chain, h, key) {
      var p :| Published(states[n].chain, h, p, key);
      KeyAhead(states, labels, h, id, key, i, n, p);
    }
  }

  /** A key that is held but not published is between the two stores of an update of its slot. */
  lemma UnpublishedIsInFlight(s: State, h: Hash, p: Pos, key: Blob)
    requires Inv(s, h) && Holds(s.chain, p, key) && !Published(s.chain, h, p, key)
    ensures s.writer.Storing? && s.writer.p == p && s.writer.tag == h.tagOf(key) != 0 && TagAt(s.chain, p) == 0
  {
    assert SlotSettled(s, h, p);
  }

  // ----- every call ends -----

  /** A bound on the loads that a Get has still to make in a chain of some entries: a tag and perhaps
      the data for each of 16 slots, and the link. */
  function LoadsLeft(entries: nat, at: Phase): int {
    match at
    case ReadTag(p) => 33 * (entries - p.entry - 1) + 2 * (16 - p.slot) + 1
    case ReadData(p) => 33 * (entries - p.entry - 1) + 2 * (16 - p.slot)
    case ReadNext(e) => 33 * (entries - e - 1) + 1
    case _ => 0
  }

  /** Each load of a Get brings its end nearer; of the other steps only the growth of the chain delays
      it, by one entry. While it has not ended, its next load is possible. */
  lemma LoadIsProgress(s: State, l: Label, h: Hash, id: nat)
    requires Inv(s, h) && Enabled(s, l) && id in s.readers && !(l.BeginGet? && l.id == id)
    ensures id in After(s, l, h).readers
    ensures var r, before := After(s, l, h).readers[id], LoadsLeft(|s.chain|, s.readers[id].at);
      var left := LoadsLeft(|After(s, l, h).chain|, r.at);
      && left >= 0 && (left == 0 <==> r.Finished())
      && (l == GetStep(id) ==> left < before)
      && (l == Grow && !r.Finished() ==> left == before + 33)
      && (l != GetStep(id) && (l != Grow || r.Finished()) ==> left == before)
    ensures !s.readers[id].Finished() ==> Enabled(s, GetStep(id))
  {
    hide Unique, SlotSettled, StoringOk, FirstVacant, NoHolder, Holds;
    StepKeepsInv(s, l, h);
    LoadsLeftOf(s, h, id);
    LoadsLeftOf(After(s, l, h), h, id);
    if l == GetStep(id) {
      NearerEnd(s.chain, h, s.readers[id]);
    }
    hide Advanced;
  }

  lemma NearerEnd(c: Chain, h: Hash, r: Reader)
    requires ChainOk(c) && PhaseOk(c, r.at) && !r.Finished()
    ensures LoadsLeft(|c|, Advanced(c, h, r)) < LoadsLeft(|c|, r.at)
  {
  }

  /** Over a call, the loads made and the loads left are at most 33 for each entry that the chain has at
      the start or gets meanwhile. */
  lemma {:induction false} CallIsBounded(states: seq<State>, labels: seq<Label>, h: Hash, id: nat, key: Blob, i: nat,
                                         n: nat)
    requires IsRun(states, labels, h) && CallOf(labels, id, key, i, n)
    ensures id in states[n].readers
    ensures var made, grown := multiset(labels[i + 1..n])[GetStep(id)], multiset(labels[i + 1..n])[Grow];
      && made + LoadsLeft(|states[n].chain|, states[n].readers[id].at) <= 33 * (|states[i].chain| + grown)
      && (made == 33 * (|states[i].chain| + grown) ==> states[n].readers[id].Finished())
      && (!states[n].readers[id].Finished() ==> Enabled(states[n], GetStep(id)))
  {
    hide Inv, Enabled, After, LoadsLeft, EmptyEntry;
    EveryRunKeepsInv(states, labels, h, n);
    var s, l := states[n - 1], labels[n - 1];
    assert Enabled(s, l) && states[n] == After(s, l, h);
    if n == i + 1 {
      assert labels[i + 1..n] == [];
      CallStarts(s, h, id, key);
    } else {
      assert labels[i + 1..n] == labels[i + 1..n - 1] + [l];
      CallIsBounded(states, labels, h, id, key, i, n - 1);
      EveryRunKeepsInv(states, labels, h, n - 1);
      LoadIsProgress(s, l, h, id);
    }
    LoadsLeftOf(states[n], h, id);
  }

  lemma CallStarts(s: State, h: Hash, id: nat, key: Blob)
    requires Enabled(s, BeginGet(id, key))
    ensures var t := After(s, BeginGet(id, key), h);
      id in t.readers && LoadsLeft(|t.chain|, t.readers[id].at) == 33 * |s.chain|
  {
  }

  lemma LoadsLeftOf(s: State, h: Hash, id: nat)
    requires Inv(s, h) && id in s.readers
    ensures LoadsLeft(|s.chain|, s.readers[id].at) == 0 <==> s.readers[id].Finished()
    ensures LoadsLeft(|s.chain|, s.readers[id].at) >= 0
    ensures !s.readers[id].Finished() ==> Enabled(s, GetStep(id))
  {
  }

  /** A call that no update overlaps is an exact look up, and it has ended after 33 loads for each
      entry at the latest. */
  lemma UndisturbedCallIsExact(states: seq<State>, labels: seq<Label>, h: Hash, id: nat, key: Blob, i: nat, n: nat)
    requires IsRun(states, labels, h) && CallOf(labels, id, key, i, n)
    requires forall k :: i < k <= n ==> states[k].writer == Free && states[k].chain == states[n].chain
    ensures id in states[n].readers && states[n].readers[id].key == key
    ensures states[n].readers[id].at.Hit? ==> Held(states[n].chain, key, states[n].readers[id].at.value)
    ensures states[n].readers[id].at.Miss? ==> NoHolder(states[n].chain, key)
    ensures multiset(labels[i + 1..n])[GetStep(id)] >= 33 * |states[n].chain| ==>
      && (forall value :: Held(states[n].chain, key, value) ==> states[n].readers[id].at == Phase.Hit(value))
      && (NoHolder(states[n].chain, key) ==> states[n].readers[id].at == Miss)
  {
    FinishedIsExact(states, labels, h, id, key, i, n);
    EveryRunKeepsInv(states, labels, h, n);
    CallIsBounded(states, labels, h, id, key, i, n);
    NothingGrown(states, labels, h, id, key, i, n);
    hide Enabled, After, IsRun, NoHolder, Held, CallOf;
    var c, at := states[n].chain, states[n].readers[id].at;
    if multiset(labels[i + 1..n])[GetStep(id)] >= 33 * |c| {
      assert at.Hit? || at.Miss?;
      forall value | Held(c, key, value) ensures at == Phase.Hit(value) {
        OneValue(c, key, value, if at.Hit? then at.value else value);
      }
      if at.Hit? {
        OneValue(c, key, at.value, at.value);
      }
    }
  }

  lemma OneValue(c: Chain, key: Blob, v: Blob, w: Blob)
    requires Unique(c) && Held(c, key, v) && Held(c, key, w)
    ensures v == w && !NoHolder(c, key)
  {
    var p :| InChain(c, p) && DataAt(c, p) == Some(Record(key, v));
    var q :| InChain(c, q) && DataAt(c, q) == Some(Record(key, w));
    assert Holds(c, p, key) && Holds(c, q, key);
  }

  lemma NothingGrown(states: seq<State>, labels: seq<Label>, h: Hash, id: nat, key: Blob, i: nat, n: nat)
    requires IsRun(states, labels, h) && CallOf(labels, id, key, i, n)
    requires forall k :: i < k <= n ==> states[k].writer == Free && states[k].chain == states[n].chain
    ensures multiset(labels[i + 1..n])[Grow] == 0 && |states[i].chain| == |states[n].chain|
  {
    assert Enabled(states[i], labels[i]) && states[i + 1] == After(states[i], labels[i], h);
    forall k | i + 1 <= k < n ensures labels[k] != Grow {
      assert Enabled(states[k], labels[k]);
    }
    assert Grow !in labels[i + 1..n];
  }

  lemma FinishedIsExact(states: seq<State>, labels: seq<Label>, h: Hash, id: nat, key: Blob, i: nat, n: nat)
    requires IsRun(states, labels, h) && CallOf(labels, id, key, i, n)
    requires forall k :: i < k <= n ==> states[k].writer == Free && states[k].chain == states[n].chain
    ensures id in states[n].readers && states[n].readers[id].key == key
    ensures states[n].readers[id].at.Hit? ==> Held(states[n].chain, key, states[n].readers[id].at.value)
    ensures states[n].readers[id].at.Miss? ==> NoHolder(states[n].chain, key)
  {
    HitIsRegular(states, labels, h, id, key, i, n);
    MissIsRegular(states, labels, h, id, key, i, n);
    EveryRunKeepsInv(states, labels, h, n);
    if states[n].readers[id].at.Miss? {
      forall p ensures !Holds(states[n].chain, p, key) {
        if Holds(states[n].chain, p, key) {
          assert SlotSettled(states[n], h, p);
          assert Published(states[n].chain, h, p, key);
          assert false;
        }
      }
    }
  }

  // ----- how far Get is from an atomic look up -----

  /** Reader a hits, and reader b, which starts afterwards, misses, although no data has been stored
      in between: the two calls cannot be put in an order that a map would allow. */
  ghost predicate LateMiss(states: seq<State>, labels: seq<Label>, h: Hash, key: Blob,
                           a: nat, i: nat, j: nat, b: nat, m: nat, n: nat) {
    && IsRun(states, labels, h)
    && CallOf(labels, a, key, i, j) && labels[j - 1] == GetStep(a)
    && a in states[j].readers && states[j].readers[a].at.Hit?
    && j <= m && CallOf(labels, b, key, m, n)
    && b in states[n].readers && states[n].readers[b].at.Miss?
    && forall k :: j <= k < n ==> !labels[k].StoreData?
  }

  lemma {:induction false} HolderStays(states: seq<State>, labels: seq<Label>, h: Hash, j: nat, n: nat, p: Pos,
                                       key: Blob)
    requires IsRun(states, labels, h) && j <= n <= |labels| && Holds(states[j].chain, p, key)
    requires forall k :: j <= k < n ==> !labels[k].StoreData?
    ensures Holds(states[n].chain, p, key)
  {
    if j < n {
      HolderStays(states, labels, h, j, n - 1, p, key);
      var s, l := states[n - 1], labels[n - 1];
      assert Enabled(s, l) && states[n] == After(s, l, h);
      if l == StoreTag {
        SetSlotAt(s.chain, s.writer.p, DataAt(s.chain, s.writer.p), s.writer.tag, p);
      }
    }
  }

  /** The tag of a key with tag 0 cannot be out of date. */
  lemma NoLateMissForTagZero(states: seq<State>, labels: seq<Label>, h: Hash, key: Blob,
                             a: nat, i: nat, j: nat, b: nat, m: nat, n: nat)
    requires LateMiss(states, labels, h, key, a, i, j, b, m, n)
    ensures h.tagOf(key) != 0
  {
    CallKeepsKey(states, labels, h, a, key, i, j);
    EveryRunKeepsInv(states, labels, h, j - 1);
    assert Enabled(states[j - 1], labels[j - 1]) && states[j] == After(states[j - 1], labels[j - 1], h);
    var p := states[j - 1].readers[a].at.p;
    assert Holds(states[j].chain, p, key);
    hide Enabled, After, Holds;
    if h.tagOf(key) == 0 {
      forall k | m < k <= n ensures SomewherePublished(states[k].chain, h, key) {
        HolderStays(states, labels, h, j, k, p, key);
        EveryRunKeepsInv(states, labels, h, k);
        if !Published(states[k].chain, h, p, key) {
          UnpublishedIsInFlight(states[k], h, p, key);
        }
      }
      MissIsRegular(states, labels, h, b, key, m, n);
    }
  }

  // ----- a run with a late miss, for any key with another tag -----

  const FIRST: Pos := Pos(0, 0)

  /** One entry with the given first slot. */
  function One(d: Option<Record>, tag: byte): Chain {
    [Entry(EmptyEntry().tags[0 := tag], EmptyEntry().data[0 := d])]
  }

  lemma OneSlot(d: Option<Record>, tag: byte, d': Option<Record>, tag': byte)
    ensures ChainOk(One(d, tag)) && InChain(One(d, tag), FIRST)
    ensures DataAt(One(d, tag), FIRST) == d && TagAt(One(d, tag), FIRST) == tag
    ensures SetSlot(One(d, tag), FIRST, d', tag') == One(d', tag')
    ensures d == None ==> FirstVacant(One(d, tag), FIRST) && forall key :: NoHolder(One(d, tag), key)
    ensures One(None, 0) == [EmptyEntry()]
  {
    var c := One(d, tag);
    assert c[0].tags[0 := tag'] == EmptyEntry().tags[0 := tag'];
    assert c[0].data[0 := d'] == EmptyEntry().data[0 := d'];
    assert EmptyEntry().tags[0 := 0] == EmptyEntry().tags && EmptyEntry().data[0 := None] == EmptyEntry().data;
  }

  function Reading(key: Blob, at: Phase): map<nat, Reader> {
    map[0 := Reader(key, at)]
  }

  /** A record is added, a reader loads its tag, the record is removed, and the key is added again
      up to the store of the data, which the reader then loads. */
  ghost function FirstStates(h: Hash, r: Record): seq<State> {
    var t, d := h.tagOf(r.key), Some(r);
    var waiting := Reading(r.key, ReadData(FIRST));
    [State(One(None, 0), Free, map[]),
     State(One(None, 0), Adding(r), map[]),
     State(One(d, 0), Storing(FIRST, t, false), map[]),
     State(One(d, t), Done, map[]),
     State(One(d, t), Free, map[]),
     State(One(d, t), Free, Reading(r.key, ReadTag(FIRST))),
     State(One(d, t), Free, waiting),
     State(One(d, t), Removing(r.key), waiting),
     State(One(None, t), Storing(FIRST, 0, false), waiting),
     State(One(None, 0), Done, waiting),
     State(One(None, 0), Free, waiting),
     State(One(None, 0), Adding(r), waiting),
     State(One(d, 0), Storing(FIRST, t, false), waiting),
     State(One(d, 0), Storing(FIRST, t, false), Reading(r.key, Phase.Hit(r.value)))]
  }

  function FirstLabels(r: Record): seq<Label> {
    [LockForAdd(r), StoreData(FIRST), StoreTag, Unlock, BeginGet(0, r.key), GetStep(0),
     LockForRemove(r.key), StoreData(FIRST), StoreTag, Unlock, LockForAdd(r), StoreData(FIRST), GetStep(0)]
  }

  lemma AddedAndLoaded(h: Hash, r: Record, k: nat)
    requires k < 6
    ensures var s := FirstStates(h, r);
      Enabled(s[k], FirstLabels(r)[k]) && s[k + 1] == After(s[k], FirstLabels(r)[k], h)
  {
    var t, d := h.tagOf(r.key), Some(r);
    OneSlot(None, 0, d, 0);
    OneSlot(d, 0, d, t);
    OneSlot(d, t, None, t);
    OneSlot(None, t, None, 0);
    hide One, SetSlot, FirstVacant, NoHolder;
  }

  lemma RemovedAndAdded(h: Hash, r: Record, k: nat)
    requires 6 <= k < 13
    ensures var s := FirstStates(h, r);
      Enabled(s[k], FirstLabels(r)[k]) && s[k + 1] == After(s[k], FirstLabels(r)[k], h)
  {
    var t, d := h.tagOf(r.key), Some(r);
    OneSlot(None, 0, d, 0);
    OneSlot(d, 0, d, t);
    OneSlot(d, t, None, t);
    OneSlot(None, t, None, 0);
    hide One, SetSlot, FirstVacant, NoHolder;
  }

  lemma FirstSteps(h: Hash, r: Record, k: nat)
    requires k < 13
    ensures var s := FirstStates(h, r);
      Enabled(s[k], FirstLabels(r)[k]) && s[k + 1] == After(s[k], FirstLabels(r)[k], h)
  {
    hide FirstStates, FirstLabels, Enabled, After;
    if k < 6 {
      AddedAndLoaded(h, r, k);
    } else {
      RemovedAndAdded(h, r, k);
    }
  }

  /** The second reader: it finds no matching tag in any of the 16 slots. */
  function Walk(k: nat): Phase {
    if k < SLOTS then ReadTag(Pos(0, k)) else if k == SLOTS then ReadNext(0) else Miss
  }

  ghost function LateState(h: Hash, r: Record, k: nat): State {
    State(One(Some(r), 0), Storing(FIRST, h.tagOf(r.key), false),
          Reading(r.key, Phase.Hit(r.value))[1 := Reader(r.key, Walk(k))])
  }

  lemma LateStep(h: Hash, r: Record, k: nat)
    requires h.tagOf(r.key) != 0 && k <= SLOTS
    ensures Enabled(LateState(h, r, k), GetStep(1))
    ensures After(LateState(h, r, k), GetStep(1), h) == LateState(h, r, k + 1)
  {
    OneSlot(Some(r), 0, None, 0);
    var s := LateState(h, r, k);
    assert k < SLOTS ==> TagAt(s.chain, Pos(0, k)) == 0;
    assert After(s, GetStep(1), h).readers == LateState(h, r, k + 1).readers;
  }

  lemma LateStart(h: Hash, r: Record)
    ensures Enabled(FirstStates(h, r)[13], BeginGet(1, r.key))
    ensures After(FirstStates(h, r)[13], BeginGet(1, r.key), h) == LateState(h, r, 0)
  {
    OneSlot(Some(r), 0, None, 0);
  }

  ghost function LateStates(h: Hash, r: Record): seq<State> {
    FirstStates(h, r) + seq(18, (k: nat) => LateState(h, r, k))
  }

  function LateLabels(r: Record): seq<Label> {
    FirstLabels(r) + [BeginGet(1, r.key)] + seq(17, _ => GetStep(1))
  }

  lemma LateMissSteps(h: Hash, r: Record, k: nat)
    requires h.tagOf(r.key) != 0 && k < 31
    ensures Enabled(LateStates(h, r)[k], LateLabels(r)[k])
    ensures LateStates(h, r)[k + 1] == After(LateStates(h, r)[k], LateLabels(r)[k], h)
  {
    hide Enabled, After, One, LateState;
    if k < 13 {
      FirstSteps(h, r, k);
    } else if k == 13 {
      LateStart(h, r);
    } else {
      LateStep(h, r, k - 14);
    }
  }

  lemma LateMissRun(h: Hash, r: Record)
    requires h.tagOf(r.key) != 0
    ensures LateMiss(LateStates(h, r), LateLabels(r), h, r.key, 0, 4, 13, 1, 13, 31)
  {
    var states, labels := LateStates(h, r), LateLabels(r);
    assert states[31] == LateState(h, r, 17);
    OneSlot(None, 0, None, 0);
    assert states[0] == State([EmptyEntry()], Free, map[]);
    assert states[13] == FirstStates(h, r)[13];
    hide Enabled, After, One, EmptyEntry;
    forall k | 0 <= k < 31 ensures Enabled(states[k], labels[k]) && states[k + 1] == After(states[k], labels[k], h) {
      LateMissSteps(h, r, k);
    }
  }

  /** Because the data is stored before the tag, two calls can go wrong in this way, for exactly the
      keys whose tag is not 0. */
  lemma LateMissIffTagged(h: Hash, key: Blob)
    ensures (exists states, labels, a, i, j, b, m, n :: LateMiss(states, labels, h, key, a, i, j, b, m, n)) <==>
      h.tagOf(key) != 0
  {
    if h.tagOf(key) != 0 {
      LateMissRun(h, Record(key, []));
    }
    forall states, labels, a, i, j, b, m, n | LateMiss(states, labels, h, key, a, i, j, b, m, n)
      ensures h.tagOf(key) != 0
    {
      NoLateMissForTagZero(states, labels, h, key, a, i, j, b, m, n);
    }
  }

  /** A finished call gives what the slots held at one instant of it. */
  ghost predicate AtomicCall(states: seq<State>, labels: seq<Label>, id: nat, key: Blob, i: nat, n: nat)
    requires n < |states|
  {
    && id in states[n].readers
    && match states[n].readers[id].at
       case Hit(value) => exists k :: i < k <= n && Held(states[k].chain, key, value)
       case Miss => exists k :: i < k <= n && NoHolder(states[k].chain, key)
       case _ => true
  }

  ghost predicate AlwaysAtomic(h: Hash, key: Blob) {
    forall states, labels, id: nat, i: nat, n: nat :: IsRun(states, labels, h) && CallOf(labels, id, key, i, n) ==>
      AtomicCall(states, labels, id, key, i, n)
  }

  lemma TagZeroIsAtomic(states: seq<State>, labels: seq<Label>, h: Hash, id: nat, key: Blob, i: nat, n: nat)
    requires IsRun(states, labels, h) && CallOf(labels, id, key, i, n) && h.tagOf(key) == 0
    ensures AtomicCall(states, labels, id, key, i, n)
  {
    hide Enabled, After, Published, Holds;
    HitIsRegular(states, labels, h, id, key, i, n);
    MissIsRegular(states, labels, h, id, key, i, n);
    if states[n].readers[id].at.Miss? {
      var k :| i < k <= n && !SomewherePublished(states[k].chain, h, key);
      EveryRunKeepsInv(states, labels, h, k);
      forall p ensures !Holds(states[k].chain, p, key) {
        if Holds(states[k].chain, p, key) {
          UnpublishedIsInFlight(states[k], h, p, key);
        }
      }
    }
  }

  lemma LateCallIsNotAtomic(h: Hash, r: Record)
    requires h.tagOf(r.key) != 0
    ensures IsRun(LateStates(h, r), LateLabels(r), h) && CallOf(LateLabels(r), 1, r.key, 13, 31)
    ensures !AtomicCall(LateStates(h, r), LateLabels(r), 1, r.key, 13, 31)
  {
    LateMissRun(h, r);
    OneSlot(Some(r), 0, None, 0);
    hide One;
    var states := LateStates(h, r);
    forall k | 13 < k <= 31 ensures Holds(states[k].chain, FIRST, r.key) {
      assert states[k] == LateState(h, r, k - 14);
    }
  }

  /** Get is an atomic look up of a key, in every run and every call, if and only if the tag of the
      key is 0, which is also the tag of a vacant slot. */
  lemma AtomicIffTagZero(h: Hash, key: Blob)
    ensures AlwaysAtomic(h, key) <==> h.tagOf(key) == 0
  {
    hide IsRun, AtomicCall, CallOf;
    if h.tagOf(key) == 0 {
      forall states, labels, id: nat, i: nat, n: nat | IsRun(states, labels, h) && CallOf(labels, id, key, i, n)
        ensures n < |states| && AtomicCall(states, labels, id, key, i, n)
      {
        CallIsInRun(states, labels, h, id, key, i, n);
        TagZeroIsAtomic(states, labels, h, id, key, i, n);
      }
    } else {
      LateCallIsNotAtomic(h, Record(key, []));
    }
  }

  lemma CallIsInRun(states: seq<State>, labels: seq<Label>, h: Hash, id: nat, key: Blob, i: nat, n: nat)
    requires IsRun(states, labels, h) && CallOf(labels, id, key, i, n)
    ensures n < |states|
  {
  }
}
