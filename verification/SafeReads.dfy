/** The lock-free look up and the reclamation protocol together: a bucket whose slots point to record
    buffers, readers that walk it under epoch references, and the release of the buffers that its
    writers unlink. It shows that no look up touches memory that has been released. */
module SafeReads {
  import opened Wrappers
  import opened BucketChain
  import Get = LockFreeGet
  import Epochs = Reclamation
  import Tokens = EpochTokens

  /** buffers says which buffer the pointer of each slot refers to; pins, under which policy each Get
      runs; seen, which buffers it has read. */
  datatype State = State(
    bucket: Get.State,
    epochs: Epochs.State,
    buffers: map<Pos, Epochs.Record>,
    pins: map<nat, Epochs.PolicyId>,
    seen: map<nat, set<Epochs.Record>>
  )

  datatype Label =
    | Begin(id: nat, key: Blob, p: Epochs.PolicyId)
    | Read(id: nat)
    | Update(q: Pos, w: Epochs.WriterId, added: Option<Epochs.Record>)
    | Locked(write: Get.Label)
    | Reclaim(step: Epochs.Label)

  ghost predicate Initial(s: State, queueSize: nat, queues: nat) {
    s == State(Get.State([EmptyEntry()], Get.Free, map[]), Epochs.Initial(queueSize, queues), map[], map[], map[])
  }

  /** The slot whose data the next step of a Get reads, when there is data in it. */
  ghost predicate Touches(s: State, id: nat, q: Pos) {
    id in s.bucket.readers && s.bucket.readers[id].at == Get.ReadData(q)
    && InChain(s.bucket.chain, q) && DataAt(s.bucket.chain, q).Some?
  }

  /** A load of data is a Load of the protocol when that is possible; ReadIsLoad shows that it is. */
  ghost predicate ReadNext(s: State, id: nat, t: State, h: Hash) {
    && Get.Enabled(s.bucket, Get.GetStep(id)) && id in s.pins && id in s.seen
    && t.bucket == Get.After(s.bucket, Get.GetStep(id), h)
    && t.buffers == s.buffers && t.pins == s.pins
    && var at := s.bucket.readers[id].at;
       if at.ReadData? && Touches(s, id, at.p) && at.p in s.buffers
          && Epochs.LoadStep(s.epochs, s.pins[id], s.buffers[at.p]).Some?
       then
         && t.epochs == Epochs.LoadStep(s.epochs, s.pins[id], s.buffers[at.p]).value
         && t.seen == s.seen[id := s.seen[id] + {s.buffers[at.p]}]
       else t.epochs == s.epochs && t.seen == s.seen
  }

  function RemovedBuffer(s: State, q: Pos): Option<Epochs.Record> {
    if q in s.buffers then Some(s.buffers[q]) else None
  }

  function BuffersAfter(s: State, q: Pos, added: Option<Epochs.Record>): map<Pos, Epochs.Record> {
    if added.Some? then s.buffers[q := added.value] else s.buffers - {q}
  }

  /** The store of a pointer is a Store of the protocol. */
  ghost predicate UpdateNext(s: State, q: Pos, w: Epochs.WriterId, added: Option<Epochs.Record>, t: State, h: Hash) {
    && Get.Enabled(s.bucket, Get.StoreData(q)) && (added.Some? <==> s.bucket.writer.Adding?)
    && Epochs.StoreStep(s.epochs, w, RemovedBuffer(s, q), added) == Some(t.epochs)
    && t == s.(bucket := Get.After(s.bucket, Get.StoreData(q), h), epochs := t.epochs,
               buffers := BuffersAfter(s, q, added))
  }

  /** All other steps of the protocol, those for other buckets included. A policy is not destroyed
      while a Get runs under it; what the Get has read is then no longer its business. A policy that
      is moved takes its Gets along. */
  ghost predicate ReclaimNext(s: State, l: Epochs.Label, t: State) {
    && s.epochs.tokens.ring.Sized() && Epochs.Step(true, s.epochs, l) == Some(t.epochs)
    && t.bucket == s.bucket && t.buffers == s.buffers
    && (l.Store? && l.removed.Some? ==> l.removed.value !in s.buffers.Values)
    && match l
       case Destroy(p) =>
         && (forall id :: id in s.pins && s.pins[id] == p ==> id in s.bucket.readers && s.bucket.readers[id].Finished())
         && t.pins == (map id | id in s.pins && s.pins[id] != p :: s.pins[id]) && t.seen == s.seen
       case Move(source, target) =>
         t.pins == (map id | id in s.pins :: if s.pins[id] == source then target else s.pins[id]) && t.seen == s.seen
       case _ => t.pins == s.pins && t.seen == s.seen
  }

  ghost predicate Next(s: State, l: Label, t: State, h: Hash) {
    match l
    case Begin(id, key, p) =>
      && Get.Enabled(s.bucket, Get.BeginGet(id, key)) && Tokens.Live(s.epochs.tokens.policies, p)
      && t == s.(bucket := Get.After(s.bucket, Get.BeginGet(id, key), h), pins := s.pins[id := p],
                 seen := s.seen[id := {}])
    case Read(id) => ReadNext(s, id, t, h)
    case Update(q, w, added) => UpdateNext(s, q, w, added, t, h)
    case Locked(write) =>
      && !write.BeginGet? && !write.GetStep? && !write.StoreData? && Get.Enabled(s.bucket, write)
      && t == s.(bucket := Get.After(s.bucket, write, h))
    case Reclaim(step) => ReclaimNext(s, step, t)
  }

  ghost predicate IsRun(states: seq<State>, labels: seq<Label>, h: Hash, queueSize: nat, queues: nat) {
    && |states| == |labels| + 1 && Initial(states[0], queueSize, queues)
    && forall k :: 0 <= k < |labels| ==> Next(states[k], labels[k], states[k + 1], h)
  }

  // ----- the invariant -----

  /** A buffer for exactly the slots with data, each of its own, and linked. */
  ghost predicate Coupled(s: State) {
    && (forall q :: q in s.buffers <==> InChain(s.bucket.chain, q) && DataAt(s.bucket.chain, q).Some?)
    && (forall q, r :: q in s.buffers && r in s.buffers && s.buffers[q] == s.buffers[r] ==> q == r)
    && forall q :: q in s.buffers ==> s.buffers[q] in s.epochs.linked
  }

  /** Every Get runs under a live reference, which holds what it has read. */
  ghost predicate Pinned(s: State) {
    forall id :: id in s.pins ==>
      && Tokens.Live(s.epochs.tokens.policies, s.pins[id])
      && id in s.seen && s.seen[id] <= Epochs.HeldBy(s.epochs, s.pins[id])
  }

  ghost predicate Inv(s: State) {
    Epochs.Inv(true, s.epochs) && s.epochs.tokens.ring.Sized() && Coupled(s) && Pinned(s)
  }

  /** The data that a Get is about to read is in a linked buffer: the load can be done under its
      reference, and the buffer has not been released. */
  lemma ReadIsLoad(s: State, id: nat, q: Pos)
    requires Inv(s) && id in s.pins && Touches(s, id, q)
    ensures q in s.buffers && Epochs.LoadStep(s.epochs, s.pins[id], s.buffers[q]).Some?
    ensures s.buffers[q] !in s.epochs.freed
  {
    hide Epochs.PendingExact, Epochs.Protected, Epochs.PhaseOk, Tokens.Inv;
    Epochs.LinkedIsNowhereElse(s.epochs, s.buffers[q], 0);
  }

  lemma ReadKeepsInv(s: State, id: nat, t: State, h: Hash)
    requires Inv(s) && ReadNext(s, id, t, h)
    ensures Inv(t)
  {
    hide Epochs.Inv, Epochs.LoadStep;
    var at := s.bucket.readers[id].at;
    if at.ReadData? && at.p in s.buffers && Epochs.LoadStep(s.epochs, s.pins[id], s.buffers[at.p]).Some? {
      LoadAdds(s.epochs, s.pins[id], s.buffers[at.p]);
    }
  }

  lemma LoadAdds(e: Epochs.State, p: Epochs.PolicyId, r: Epochs.Record)
    requires Epochs.Inv(true, e) && Epochs.LoadStep(e, p, r).Some?
    ensures var f := Epochs.LoadStep(e, p, r).value;
      && Epochs.Inv(true, f) && f.tokens == e.tokens && f.linked == e.linked
      && Epochs.HeldBy(f, p) == Epochs.HeldBy(e, p) + {r}
      && forall q :: q != p ==> Epochs.HeldBy(f, q) == Epochs.HeldBy(e, q)
  {
    hide Epochs.Inv;
    Epochs.LoadKeepsInv(true, e, p, r);
  }

  lemma LinkedIsCreated(e: Epochs.State, r: Epochs.Record)
    requires Epochs.Inv(true, e) && r in e.linked
    ensures r in e.created
  {
    assert Epochs.Places(e, r) >= 1;
  }

  lemma StoreEffect(e: Epochs.State, w: Epochs.WriterId, removed: Option<Epochs.Record>, added: Option<Epochs.Record>,
                    f: Epochs.State)
    requires Epochs.Inv(true, e) && Epochs.StoreStep(e, w, removed, added) == Some(f)
    ensures Epochs.Inv(true, f) && f.tokens == e.tokens && f.held == e.held
    ensures added.Some? ==> added.value !in e.linked && added.value in f.linked
    ensures forall r :: r in e.linked && removed != Some(r) ==> r in f.linked
  {
    Epochs.StoreKeepsInv(true, e, w, removed, added);
    if added.Some? && added.value in e.linked {
      LinkedIsCreated(e, added.value);
    }
    hide Epochs.Inv;
  }

  lemma UpdateKeepsInv(s: State, q: Pos, w: Epochs.WriterId, added: Option<Epochs.Record>, t: State, h: Hash)
    requires Inv(s) && UpdateNext(s, q, w, added, t, h)
    ensures Inv(t)
  {
    hide Epochs.Inv, Epochs.StoreStep, Coupled;
    StoreEffect(s.epochs, w, RemovedBuffer(s, q), added, t.epochs);
    UpdateKeepsCoupled(s, q, added, t, h);
  }

  lemma UpdateKeepsCoupled(s: State, q: Pos, added: Option<Epochs.Record>, t: State, h: Hash)
    requires Coupled(s) && Get.Enabled(s.bucket, Get.StoreData(q)) && (added.Some? <==> s.bucket.writer.Adding?)
    requires t.bucket == Get.After(s.bucket, Get.StoreData(q), h) && t.buffers == BuffersAfter(s, q, added)
    requires added.Some? ==> added.value !in s.epochs.linked && added.value in t.epochs.linked
    requires forall r :: r in s.epochs.linked && RemovedBuffer(s, q) != Some(r) ==> r in t.epochs.linked
    ensures Coupled(t)
  {
    var c, d := s.bucket.chain, t.bucket.chain;
    forall r ensures r in t.buffers <==> InChain(d, r) && DataAt(d, r).Some? {
      SetSlotAt(c, q, if s.bucket.writer.Adding? then Some(s.bucket.writer.record) else None, TagAt(c, q), r);
    }
  }

  /** What one step of the protocol leaves to the policies that Gets run under. */
  lemma PoliciesAfter(e: Epochs.State, l: Epochs.Label, f: Epochs.State, p: Epochs.PolicyId)
    requires Epochs.Inv(true, e) && e.tokens.ring.Sized() && Epochs.Step(true, e, l) == Some(f)
    requires Tokens.Live(e.tokens.policies, p) && l != Epochs.Destroy(p)
    ensures var now := if l.Move? && l.source == p then l.target else p;
      Tokens.Live(f.tokens.policies, now) && Epochs.HeldBy(e, p) <= Epochs.HeldBy(f, now)
  {
    hide Epochs.Conserved, Epochs.Protected, Epochs.PendingExact, Epochs.PhaseOk, Tokens.Step, Tokens.Inv;
    match l
    case Construct(q) =>
      Epochs.NewPolicy(e.tokens, q);
      Epochs.TokenStepKeepsOthers(e.tokens, Tokens.Construct(q));
    case Move(source, target) =>
      MoveNeedsRoom(e.tokens, source, target);
      Epochs.TokenStepKeepsOthers(e.tokens, Tokens.Move(source, target));
    case Destroy(q) =>
      Epochs.TokenStepKeepsOthers(e.tokens, Tokens.Destroy(q));
    case _ =>
  }

  lemma MoveNeedsRoom(t: Tokens.State, source: Epochs.PolicyId, target: Epochs.PolicyId)
    requires t.ring.Sized() && Tokens.Step(t, Tokens.Move(source, target)).Next?
    ensures source in t.policies && target !in t.policies
  {
  }

  lemma ReclaimKeepsInv(s: State, l: Epochs.Label, t: State)
    requires Inv(s) && ReclaimNext(s, l, t)
    ensures Inv(t)
  {
    Epochs.StepKeepsInv(true, s.epochs, l);
    LinkedAfter(s.epochs, l, t.epochs);
    Epochs.NothingOverdue(t.epochs);
    forall id | id in t.pins
      ensures Tokens.Live(t.epochs.tokens.policies, t.pins[id])
      ensures id in t.seen && t.seen[id] <= Epochs.HeldBy(t.epochs, t.pins[id])
    {
      PoliciesAfter(s.epochs, l, t.epochs, s.pins[id]);
    }
  }

  lemma LinkedAfter(e: Epochs.State, l: Epochs.Label, f: Epochs.State)
    requires e.tokens.ring.Sized() && Epochs.Step(true, e, l) == Some(f)
    ensures forall r :: r in e.linked && !(l.Store? && l.removed == Some(r)) ==> r in f.linked
  {
    hide Tokens.Step;
  }

  lemma NextKeepsInv(s: State, l: Label, t: State, h: Hash)
    requires Inv(s) && Next(s, l, t, h)
    ensures Inv(t)
  {
    hide Epochs.Inv, ReadNext, UpdateNext, ReclaimNext;
    match l
    case Read(id) => ReadKeepsInv(s, id, t, h);
    case Update(q, w, added) => UpdateKeepsInv(s, q, w, added, t, h);
    case Reclaim(step) => ReclaimKeepsInv(s, step, t);
    case Locked(write) => LockedKeepsCoupled(s, write, t, h);
    case Begin(id, key, p) =>
  }

  lemma LockedKeepsCoupled(s: State, step: Get.Label, t: State, h: Hash)
    requires Coupled(s) && Get.Enabled(s.bucket, step) && !step.StoreData?
    requires t == s.(bucket := Get.After(s.bucket, step, h))
    ensures Coupled(t)
  {
    var c, d := s.bucket.chain, t.bucket.chain;
    forall q ensures InChain(d, q) && DataAt(d, q).Some? <==> InChain(c, q) && DataAt(c, q).Some? {
      if step == Get.StoreTag {
        var p := s.bucket.writer.p;
        SetSlotAt(c, p, DataAt(c, p), s.bucket.writer.tag, q);
      }
    }
  }

  // ----- every run -----

  lemma {:induction false} EveryRunKeepsInv(states: seq<State>, labels: seq<Label>, h: Hash, queueSize: nat,
                                            queues: nat, n: nat)
    requires queueSize > 0 && IsRun(states, labels, h, queueSize, queues) && n <= |labels|
    ensures Inv(states[n])
  {
    if n == 0 {
      Epochs.InitialInv(true, queueSize, queues);
    } else {
      hide Inv, Next;
      EveryRunKeepsInv(states, labels, h, queueSize, queues, n - 1);
      NextKeepsInv(states[n - 1], labels[n - 1], states[n], h);
    }
  }

  /** In every run, when a Get reads the data of a slot, the buffer is linked and has not been
      released; and no buffer that a Get has read is released while its policy lives. */
  lemma NoGetTouchesReleasedMemory(states: seq<State>, labels: seq<Label>, h: Hash, queueSize: nat, queues: nat,
                                   n: nat, id: nat)
    requires queueSize > 0 && IsRun(states, labels, h, queueSize, queues) && n <= |labels| && id in states[n].pins
    ensures forall q :: Touches(states[n], id, q) ==>
      && q in states[n].buffers && states[n].buffers[q] in states[n].epochs.linked
      && states[n].buffers[q] !in states[n].epochs.freed
    ensures id in states[n].seen && forall r :: r in states[n].seen[id] ==> r !in states[n].epochs.freed
  {
    var s := states[n];
    EveryRunKeepsInv(states, labels, h, queueSize, queues, n);
    Epochs.InvIsSafe(true, s.epochs);
    hide Epochs.Inv;
    forall q | Touches(s, id, q) ensures q in s.buffers && s.buffers[q] !in s.epochs.freed {
      ReadIsLoad(s, id, q);
    }
  }

  /** Every load of data is a Load of the protocol. */
  lemma EveryReadIsALoad(states: seq<State>, labels: seq<Label>, h: Hash, queueSize: nat, queues: nat, n: nat,
                         id: nat, q: Pos)
    requires queueSize > 0 && IsRun(states, labels, h, queueSize, queues) && n < |labels|
    requires labels[n] == Read(id) && Touches(states[n], id, q)
    ensures q in states[n].buffers && id in states[n].pins && states[n].epochs.tokens.ring.Sized()
    ensures var load := Epochs.Load(states[n].pins[id], states[n].buffers[q]);
      Epochs.Step(true, states[n].epochs, load) == Some(states[n + 1].epochs)
  {
    EveryRunKeepsInv(states, labels, h, queueSize, queues, n);
    assert ReadNext(states[n], id, states[n + 1], h);
    ReadIsLoad(states[n], id, q);
  }

  /** The next load of a Get that has not ended is possible, whatever the others have done. */
  lemma ReadIsPossible(s: State, id: nat, h: Hash) returns (t: State)
    requires Inv(s) && id in s.pins && Get.Enabled(s.bucket, Get.GetStep(id))
    ensures Next(s, Read(id), t, h)
  {
    hide Epochs.Inv, Epochs.LoadStep, Get.After;
    var at, bucket := s.bucket.readers[id].at, Get.After(s.bucket, Get.GetStep(id), h);
    if at.ReadData? && Touches(s, id, at.p) {
      ReadIsLoad(s, id, at.p);
      var r := s.buffers[at.p];
      t := State(bucket, Epochs.LoadStep(s.epochs, s.pins[id], r).value, s.buffers, s.pins,
                 s.seen[id := s.seen[id] + {r}]);
    } else {
      t := s.(bucket := bucket);
    }
  }

  /** A writer that is about to store always can, with a new buffer and a thread of its own. */
  lemma UpdateIsStore(s: State, q: Pos, w: Epochs.WriterId, added: Option<Epochs.Record>)
    requires Inv(s) && Get.Enabled(s.bucket, Get.StoreData(q))
    requires w !in s.epochs.writers && (added.Some? ==> added.value !in s.epochs.created)
    ensures Epochs.StoreStep(s.epochs, w, RemovedBuffer(s, q), added).Some?
  {
    hide Epochs.Inv;
  }
}
