/** Epoch/EpochQueue.h: the ring of reference counts, one per epoch modulo the queue size. */
module EpochRing {
  import opened Wrappers

  /** The slot that counts an epoch in a ring of n slots. */
  function SlotOf(epoch: nat, n: nat): (i: nat)
    requires n > 0
    ensures i < n
  {
    epoch % n
  }

  /** The value of an EpochQueue. Epochs from front to back may still be referenced. Each of
      AddRef, RemoveRef, AddNewEpoch and Advance is one atomic step. */
  datatype Ring = Ring(front: nat, back: nat, counts: seq<nat>) {
    predicate Sized() {
      |counts| > 0
    }

    function Slot(epoch: nat): (i: nat)
      requires Sized()
      ensures i < |counts|
    {
      SlotOf(epoch, |counts|)
    }

    /** AddRef pins the back epoch. */
    function AddRef(): Ring
      requires Sized()
    {
      this.(counts := counts[Slot(back) := counts[Slot(back)] + 1])
    }

    /** RemoveRef fails with "Reference counter is invalid." when the slot is already zero. */
    function RemoveRef(epoch: nat): Option<Ring>
      requires Sized()
    {
      var i := Slot(epoch);
      if counts[i] == 0 then None else Some(this.(counts := counts[i := counts[i] - 1]))
    }

    function AddNewEpoch(): Ring {
      this.(back := back + 1)
    }

    /** The guard and the test of one iteration of RemoveUnreferenceEpochCounters. */
    predicate CanAdvance()
      requires Sized()
    {
      back > front && counts[Slot(front)] == 0
    }

    function Advance(): Ring {
      this.(front := front + 1)
    }

    /** All iterations of RemoveUnreferenceEpochCounters. */
    function RemoveUnreferenced(): Ring
      requires Sized()
      decreases back - front
    {
      if CanAdvance() then Advance().RemoveUnreferenced() else this
    }
  }

  /** Where the loop stops, with no assumption on the ring: it skips unreferenced slots only, and
      it stops at the first slot in use or at the back. */
  lemma {:induction false} LoopStopsAtFirstReferencedSlot(r: Ring)
    requires r.Sized() && r.front <= r.back
    ensures var s := r.RemoveUnreferenced();
      && s == r.(front := s.front)
      && r.front <= s.front <= r.back
      && (forall e :: r.front <= e < s.front ==> r.counts[r.Slot(e)] == 0)
      && (s.front == r.back || r.counts[r.Slot(s.front)] != 0)
    decreases r.back - r.front
  {
    hide SlotOf;
    if r.CanAdvance() {
      LoopStopsAtFirstReferencedSlot(r.Advance());
      assert forall e :: r.front + 1 <= e < r.RemoveUnreferenced().front ==>
        r.Advance().counts[r.Advance().Slot(e)] == 0;
      assert forall e :: r.Advance().Slot(e) == r.Slot(e);
    }
  }

  /** The owner of one EpochQueue, with the operations of EpochRefManager and
      EpochCounterManager, which hold nothing but a reference to the queue. */
  class EpochQueue {
    var frontIndex: nat
    var backIndex: nat
    const refCounts: array<nat>

    ghost predicate Valid()
      reads this
    {
      refCounts.Length > 0 && frontIndex <= backIndex
    }

    ghost function View(): Ring
      reads this, refCounts
    {
      Ring(frontIndex, backIndex, refCounts[..])
    }

    /** A queue size of zero is refused by the source with an exception; Create reports it. */
    static method Create(epochCounter: nat, queueSize: nat) returns (q: Result<EpochQueue, string>)
      ensures q.Ok? <==> queueSize > 0
      ensures q.Ok? ==> fresh(q.value) && fresh(q.value.refCounts) && q.value.Valid()
      ensures q.Ok? ==> q.value.View() == Ring(epochCounter, epochCounter, seq(queueSize, _ => 0))
    {
      if queueSize == 0 {
        return Err("Zero queue size is not allowed.");
      }
      var queue := new EpochQueue(epochCounter, queueSize);
      q := Ok(queue);
    }

    constructor (epochCounter: nat, queueSize: nat)
      requires queueSize > 0
      ensures Valid() && fresh(refCounts)
      ensures View() == Ring(epochCounter, epochCounter, seq(queueSize, _ => 0))
    {
      frontIndex, backIndex := epochCounter, epochCounter;
      refCounts := new nat[queueSize](_ => 0);
    }

    method AddRef() returns (epoch: nat)
      requires Valid()
      modifies refCounts
      ensures Valid() && epoch == backIndex
      ensures View() == old(View()).AddRef()
    {
      var i := backIndex % refCounts.Length;
      refCounts[i] := refCounts[i] + 1;
      epoch := backIndex;
    }

    method RemoveRef(epoch: nat) returns (ok: bool)
      requires Valid()
      modifies refCounts
      ensures Valid()
      ensures match old(View()).RemoveRef(epoch)
        case None => !ok && View() == old(View())
        case Some(r) => ok && View() == r
    {
      var i := epoch % refCounts.Length;
      if refCounts[i] == 0 {
        return false;
      }
      refCounts[i] := refCounts[i] - 1;
      ok := true;
    }

    method AddNewEpoch()
      requires Valid()
      modifies this`backIndex
      ensures Valid() && View() == old(View()).AddNewEpoch()
    {
      backIndex := backIndex + 1;
    }

    method RemoveUnreferenceEpochCounters() returns (oldest: nat)
      requires Valid()
      modifies this`frontIndex
      ensures Valid() && View() == old(View()).RemoveUnreferenced() && oldest == frontIndex
    {
      while backIndex > frontIndex
        invariant Valid()
        invariant View().RemoveUnreferenced() == old(View().RemoveUnreferenced())
        decreases backIndex - frontIndex
      {
        if refCounts[frontIndex % refCounts.Length] == 0 {
          frontIndex := frontIndex + 1;
        } else {
          break;
        }
      }
      oldest := frontIndex;
    }
  }
}

/** Epoch/EpochRefPolicy.h: every policy object owns at most one reference. The state machine runs
    any interleaving of policy construction, move and destruction with the steps that publish
    epochs and advance the front, each of them atomic. */
module EpochTokens {
  import opened EpochRing

  // The value the move constructor leaves behind: the largest 64-bit unsigned integer.
  const MOVED_FROM: nat := 0xFFFF_FFFF_FFFF_FFFF

  type PolicyId = nat

  /** policies maps every policy object that exists to its m_epochCounter. The multisets record
      the epoch of every AddRef and every RemoveRef so far. */
  datatype State = State(ring: Ring, policies: map<PolicyId, nat>, added: multiset<nat>, removed: multiset<nat>)

  datatype Op =
    | Construct(p: PolicyId)
    | Move(source: PolicyId, target: PolicyId)
    | Destroy(p: PolicyId)
    | Publish
    | AdvanceFront

  /** InvalidReference is the exception of RemoveRef, thrown inside a destructor. */
  datatype Outcome = Next(state: State) | NotEnabled | InvalidReference

  function Initial(epoch: nat, queueSize: nat): State {
    State(Ring(epoch, epoch, seq(queueSize, _ => 0)), map[], multiset{}, multiset{})
  }

  function ConstructPolicy(s: State, p: PolicyId): State
    requires s.ring.Sized()
  {
    State(s.ring.AddRef(), s.policies[p := s.ring.back], s.added + multiset{s.ring.back}, s.removed)
  }

  function MovePolicy(s: State, source: PolicyId, target: PolicyId): State
    requires source in s.policies
  {
    s.(policies := s.policies[target := s.policies[source]][source := MOVED_FROM])
  }

  function DestroyPolicy(s: State, p: PolicyId): Outcome
    requires s.ring.Sized() && p in s.policies
  {
    var epoch := s.policies[p];
    if epoch == MOVED_FROM then
      Next(s.(policies := s.policies - {p}))
    else
      match s.ring.RemoveRef(epoch)
      case None => InvalidReference
      case Some(r) => Next(State(r, s.policies - {p}, s.added, s.removed + multiset{epoch}))
  }

  /** The epoch counter stays below its largest value: the assumption under which the sentinel of
      the move constructor cannot be mistaken for an epoch. */
  function Step(s: State, op: Op): Outcome
    requires s.ring.Sized()
  {
    match op
    case Construct(p) => if p in s.policies then NotEnabled else Next(ConstructPolicy(s, p))
    case Move(source, target) =>
      if source !in s.policies || target in s.policies then NotEnabled else Next(MovePolicy(s, source, target))
    case Destroy(p) => if p !in s.policies then NotEnabled else DestroyPolicy(s, p)
    case Publish => if s.ring.back + 1 >= MOVED_FROM then NotEnabled else Next(s.(ring := s.ring.AddNewEpoch()))
    case AdvanceFront => if s.ring.CanAdvance() then Next(s.(ring := s.ring.Advance())) else NotEnabled
  }

  function Run(s: State, ops: seq<Op>): Outcome
    requires s.ring.Sized()
    decreases |ops|
  {
    if ops == [] then Next(s)
    else
      match Step(s, ops[0])
      case Next(t) => if t.ring.Sized() then Run(t, ops[1..]) else NotEnabled
      case failed => failed
  }

  // ----- what every reachable state satisfies -----

  ghost predicate Live(policies: map<PolicyId, nat>, p: PolicyId) {
    p in policies && policies[p] != MOVED_FROM
  }

  /** The policies whose reference is counted in slot i of a ring of n slots. */
  ghost function Holders(policies: map<PolicyId, nat>, n: nat, i: nat): set<PolicyId>
    requires n > 0
  {
    set p | p in policies && policies[p] != MOVED_FROM && SlotOf(policies[p], n) == i
  }

  /** The policies that hold a reference on one epoch. */
  ghost function HoldersOf(policies: map<PolicyId, nat>, epoch: nat): set<PolicyId> {
    set p | p in policies && policies[p] != MOVED_FROM && policies[p] == epoch
  }

  ghost predicate CountsExact(s: State)
    requires s.ring.Sized()
  {
    forall i :: 0 <= i < |s.ring.counts| ==> s.ring.counts[i] == |Holders(s.policies, |s.ring.counts|, i)|
  }

  ghost predicate Bounded(s: State) {
    && s.ring.front <= s.ring.back < MOVED_FROM
    && forall p :: Live(s.policies, p) ==> s.ring.front <= s.policies[p] <= s.ring.back
  }

  ghost predicate Linear(s: State) {
    forall e: nat :: s.added[e] == s.removed[e] + |HoldersOf(s.policies, e)|
  }

  ghost predicate Inv(s: State) {
    s.ring.Sized() && CountsExact(s) && Bounded(s) && Linear(s)
  }

  /** The slot of a live reference is never zero. */
  lemma LiveSlotIsCounted(s: State, p: PolicyId)
    requires s.ring.Sized() && CountsExact(s) && Live(s.policies, p)
    ensures s.ring.counts[s.ring.Slot(s.policies[p])] > 0
  {
    assert p in Holders(s.policies, |s.ring.counts|, s.ring.Slot(s.policies[p]));
  }

  lemma ConstructCounts(s: State, p: PolicyId)
    requires s.ring.Sized() && CountsExact(s) && p !in s.policies && s.ring.back < MOVED_FROM
    ensures CountsExact(ConstructPolicy(s, p))
  {
    hide SlotOf;
    var t := ConstructPolicy(s, p);
    var n := |s.ring.counts|;
    forall i | 0 <= i < n ensures t.ring.counts[i] == |Holders(t.policies, n, i)| {
      if i == s.ring.Slot(s.ring.back) {
        assert Holders(t.policies, n, i) == Holders(s.policies, n, i) + {p};
      } else {
        assert Holders(t.policies, n, i) == Holders(s.policies, n, i);
      }
    }
  }

  lemma AddedHolder(policies: map<PolicyId, nat>, p: PolicyId, epoch: nat, e: nat)
    requires p !in policies && epoch != MOVED_FROM
    ensures |HoldersOf(policies[p := epoch], e)| == |HoldersOf(policies, e)| + if e == epoch then 1 else 0
  {
    if e == epoch {
      assert HoldersOf(policies[p := epoch], e) == HoldersOf(policies, e) + {p};
    } else {
      assert HoldersOf(policies[p := epoch], e) == HoldersOf(policies, e);
    }
  }

  lemma ConstructLinear(s: State, p: PolicyId)
    requires s.ring.Sized() && Linear(s) && p !in s.policies && s.ring.back < MOVED_FROM
    ensures Linear(ConstructPolicy(s, p))
  {
    hide SlotOf;
    var t := ConstructPolicy(s, p);
    forall e: nat ensures t.added[e] == t.removed[e] + |HoldersOf(t.policies, e)| {
      AddedHolder(s.policies, p, s.ring.back, e);
    }
  }

  lemma ConstructKeepsInv(s: State, p: PolicyId)
    requires Inv(s) && p !in s.policies
    ensures Inv(ConstructPolicy(s, p))
  {
    ConstructCounts(s, p);
    ConstructLinear(s, p);
    hide CountsExact, Linear;
    var t := ConstructPolicy(s, p);
    assert forall q :: Live(t.policies, q) ==> Live(s.policies, q) || q == p;
  }

  lemma SwappedHolder(before: set<PolicyId>, after: set<PolicyId>, source: PolicyId, target: PolicyId)
    requires target !in before
    requires after == if source in before then before - {source} + {target} else before
    ensures |after| == |before|
  {
  }

  lemma MoveCounts(s: State, source: PolicyId, target: PolicyId)
    requires s.ring.Sized() && CountsExact(s) && source in s.policies && target !in s.policies
    ensures CountsExact(MovePolicy(s, source, target))
  {
    hide SlotOf;
    var t := MovePolicy(s, source, target);
    var n := |s.ring.counts|;
    forall i | 0 <= i < n ensures |Holders(t.policies, n, i)| == |Holders(s.policies, n, i)| {
      SwappedHolder(Holders(s.policies, n, i), Holders(t.policies, n, i), source, target);
    }
  }

  lemma MoveLinear(s: State, source: PolicyId, target: PolicyId)
    requires Linear(s) && source in s.policies && target !in s.policies
    ensures Linear(MovePolicy(s, source, target))
  {
    var t := MovePolicy(s, source, target);
    forall e: nat ensures |HoldersOf(t.policies, e)| == |HoldersOf(s.policies, e)| {
      SwappedHolder(HoldersOf(s.policies, e), HoldersOf(t.policies, e), source, target);
    }
  }

  lemma MoveKeepsInv(s: State, source: PolicyId, target: PolicyId)
    requires Inv(s) && source in s.policies && target !in s.policies
    ensures Inv(MovePolicy(s, source, target))
  {
    MoveCounts(s, source, target);
    MoveLinear(s, source, target);
    hide CountsExact, Linear;
    var t := MovePolicy(s, source, target);
    assert forall q :: Live(t.policies, q) ==> Live(s.policies, if q == target then source else q);
  }

  lemma DestroyCounts(s: State, p: PolicyId)
    requires s.ring.Sized() && CountsExact(s) && p in s.policies
    ensures DestroyPolicy(s, p).Next? && CountsExact(DestroyPolicy(s, p).state)
  {
    hide SlotOf;
    var n := |s.ring.counts|;
    if Live(s.policies, p) {
      LiveSlotIsCounted(s, p);
    }
    var t := DestroyPolicy(s, p).state;
    forall i | 0 <= i < n ensures t.ring.counts[i] == |Holders(t.policies, n, i)| {
      assert Holders(t.policies, n, i) == Holders(s.policies, n, i) - {p};
    }
  }

  lemma DestroyLinear(s: State, p: PolicyId)
    requires s.ring.Sized() && Linear(s) && p in s.policies && DestroyPolicy(s, p).Next?
    ensures Linear(DestroyPolicy(s, p).state)
  {
    var t := DestroyPolicy(s, p).state;
    forall e: nat ensures t.added[e] == t.removed[e] + |HoldersOf(t.policies, e)| {
      assert HoldersOf(t.policies, e) == HoldersOf(s.policies, e) - {p};
    }
  }

  /** A live policy always finds its slot positive, so its destructor never throws. */
  lemma DestroyKeepsInv(s: State, p: PolicyId)
    requires Inv(s) && p in s.policies
    ensures DestroyPolicy(s, p).Next? && Inv(DestroyPolicy(s, p).state)
  {
    DestroyCounts(s, p);
    DestroyLinear(s, p);
    hide CountsExact, Linear;
    assert forall q :: Live(DestroyPolicy(s, p).state.policies, q) ==> Live(s.policies, q);
  }

  /** The front steps over an epoch only when no live policy can have that epoch. */
  lemma AdvanceKeepsInv(s: State)
    requires Inv(s) && s.ring.CanAdvance()
    ensures Inv(s.(ring := s.ring.Advance()))
  {
    forall p | Live(s.policies, p) ensures s.ring.front + 1 <= s.policies[p] {
      LiveSlotIsCounted(s, p);
    }
  }

  lemma StepKeepsInv(s: State, op: Op)
    requires Inv(s)
    ensures Step(s, op) != InvalidReference
    ensures Step(s, op).Next? ==> Inv(Step(s, op).state)
  {
    match op
    case Construct(p) => if p !in s.policies { ConstructKeepsInv(s, p); }
    case Move(source, target) =>
      if source in s.policies && target !in s.policies { MoveKeepsInv(s, source, target); }
    case Destroy(p) => if p in s.policies { DestroyKeepsInv(s, p); }
    case Publish =>
    case AdvanceFront => if s.ring.CanAdvance() { AdvanceKeepsInv(s); }
  }

  lemma InitialInv(epoch: nat, queueSize: nat)
    requires queueSize > 0 && epoch < MOVED_FROM
    ensures Inv(Initial(epoch, queueSize))
  {
    var s := Initial(epoch, queueSize);
    assert forall i :: 0 <= i < queueSize ==> Holders(s.policies, queueSize, i) == {};
    assert forall e: nat :: HoldersOf(s.policies, e) == {};
  }

  lemma {:induction false} RunKeepsInv(s: State, ops: seq<Op>)
    requires Inv(s)
    ensures Run(s, ops) != InvalidReference
    ensures Run(s, ops).Next? ==> Inv(Run(s, ops).state)
    decreases |ops|
  {
    if ops != [] {
      StepKeepsInv(s, ops[0]);
      if Step(s, ops[0]).Next? {
        RunKeepsInv(Step(s, ops[0]).state, ops[1..]);
      }
    }
  }

  /** Ring soundness and linearity over every run: the counts are exact even after the ring has
      wrapped, every live reference lies between front and back, every RemoveRef is matched with
      an earlier AddRef of the same epoch, and the exception of RemoveRef cannot occur. */
  lemma EveryRunIsSound(epoch: nat, queueSize: nat, ops: seq<Op>)
    requires queueSize > 0 && epoch < MOVED_FROM
    ensures Run(Initial(epoch, queueSize), ops) != InvalidReference
    ensures Run(Initial(epoch, queueSize), ops).Next? ==> Inv(Run(Initial(epoch, queueSize), ops).state)
  {
    InitialInv(epoch, queueSize);
    RunKeepsInv(Initial(epoch, queueSize), ops);
  }

  /** A moved-from policy releases nothing when it is destroyed; any other policy releases exactly
      its own reference. */
  lemma OnlyOneOwnerReleases(s: State, source: PolicyId, target: PolicyId)
    requires s.ring.Sized() && source in s.policies && target !in s.policies
    ensures var d := DestroyPolicy(MovePolicy(s, source, target), source);
      && d == Next(s.(policies := s.policies[target := s.policies[source]] - {source}))
      && DestroyPolicy(d.state, target) == DestroyPolicy(s, source)
  {
    hide SlotOf;
    var after := s.policies[target := s.policies[source]] - {source};
    assert MovePolicy(s, source, target).policies - {source} == after;
    assert after - {target} == s.policies - {source};
  }

  // ----- what the processing thread learns from the loop -----

  /** The oldest epoch that is still referenced, or the back when nothing is. */
  ghost predicate IsOldest(s: State, e: nat) {
    && (forall p :: Live(s.policies, p) ==> e <= s.policies[p])
    && e <= s.ring.back
    && (e == s.ring.back || exists p :: Live(s.policies, p) && s.policies[p] == e)
  }

  /** No live reference shares its slot with an older epoch that is still in the queue. */
  ghost predicate NoFalseSharing(s: State, oldest: nat)
    requires s.ring.Sized()
  {
    forall p, e :: Live(s.policies, p) && s.ring.front <= e < oldest
      ==> s.ring.Slot(s.policies[p]) != s.ring.Slot(e)
  }

  /** The loop never passes a live reference, wrapped or not. */
  lemma LoopNeverPassesALiveReference(s: State)
    requires Inv(s)
    ensures var front := s.ring.RemoveUnreferenced().front;
      forall p :: Live(s.policies, p) ==> front <= s.policies[p]
  {
    LoopStopsAtFirstReferencedSlot(s.ring);
    var front := s.ring.RemoveUnreferenced().front;
    forall p | Live(s.policies, p) ensures front <= s.policies[p] {
      LiveSlotIsCounted(s, p);
    }
  }

  /** A slot in use has a live reference in it. */
  lemma CountedSlotIsHeld(s: State, e: nat) returns (p: PolicyId)
    requires s.ring.Sized() && CountsExact(s) && s.ring.counts[s.ring.Slot(e)] > 0
    ensures Live(s.policies, p) && s.ring.Slot(s.policies[p]) == s.ring.Slot(e)
  {
    assert |Holders(s.policies, |s.ring.counts|, s.ring.Slot(e))| > 0;
    p :| p in Holders(s.policies, |s.ring.counts|, s.ring.Slot(e));
  }

  /** The value the header promises, "the biggest epoch count such that all other epoch counts'
      references are zeros", is returned exactly when no wrapped reference shares a slot with an
      older epoch. */
  lemma LoopReturnsOldestExactly(s: State, oldest: nat)
    requires Inv(s) && IsOldest(s, oldest)
    ensures s.ring.RemoveUnreferenced().front == oldest <==> NoFalseSharing(s, oldest)
  {
    LoopStopsAtFirstReferencedSlot(s.ring);
    LoopNeverPassesALiveReference(s);
    var front := s.ring.RemoveUnreferenced().front;
    hide SlotOf, CountsExact, Linear, Ring.RemoveUnreferenced;
    if front == oldest {
      forall p, e | Live(s.policies, p) && s.ring.front <= e < oldest
        ensures s.ring.Slot(s.policies[p]) != s.ring.Slot(e)
      {
        LiveSlotIsCounted(s, p);
      }
    } else if front < oldest {
      var p := CountedSlotIsHeld(s, front);
      assert !NoFalseSharing(s, oldest);
    }
  }

  lemma DistinctSlots(a: nat, b: nat, n: nat)
    requires n > 0 && a < b < a + n
    ensures SlotOf(a, n) != SlotOf(b, n)
  {
    var d := b / n - a / n;
    assert b - a == n * d + (b % n - a % n) by {
      assert n * d == n * (b / n) - n * (a / n);
    }
    assert d >= 1 ==> n * d >= n;
    assert d <= 0 ==> n * d <= 0;
  }

  /** While fewer epochs are in flight than the ring has slots, nothing can be falsely shared. */
  lemma LoopReturnsOldestUnwrapped(s: State, oldest: nat)
    requires Inv(s) && IsOldest(s, oldest)
    requires s.ring.back - s.ring.front < |s.ring.counts|
    ensures s.ring.RemoveUnreferenced().front == oldest
  {
    forall p, e | Live(s.policies, p) && s.ring.front <= e < oldest
      ensures s.ring.Slot(s.policies[p]) != s.ring.Slot(e)
    {
      DistinctSlots(e, s.policies[p], |s.ring.counts|);
    }
    LoopReturnsOldestExactly(s, oldest);
  }

  /** The overlap that AddNewEpoch leaves unchecked: one slot, one reader on epoch 1, and the front
      cannot leave epoch 0 although epoch 1 is the oldest reference. */
  lemma OverlapHidesTheOldest()
    ensures var s := Run(Initial(0, 1), [Publish, Construct(7)]);
      && s.Next? && IsOldest(s.state, 1)
      && s.state.ring.RemoveUnreferenced().front == 0
  {
    var s0 := Initial(0, 1);
    var s1 := s0.(ring := s0.ring.AddNewEpoch());
    var s2 := ConstructPolicy(s1, 7);
    assert Run(s2, []) == Next(s2);
    assert [Publish, Construct(7)][1..] == [Construct(7)];
    assert [Construct(7)][1..] == [];
    assert Run(s1, [Construct(7)]) == Next(s2);
    assert s2.ring.counts == [1];
    assert Live(s2.policies, 7);
  }

  // ----- the class -----

  /** A policy object over an epoch queue. The destructor reports whether RemoveRef succeeded. */
  class EpochRefPolicy {
    const epochRefManager: EpochQueue
    var epochCounter: nat

    constructor (queue: EpochQueue)
      requires queue.Valid()
      modifies queue.refCounts
      ensures queue.Valid() && queue.View() == old(queue.View()).AddRef()
      ensures epochRefManager == queue && epochCounter == queue.backIndex
    {
      epochRefManager := queue;
      var epoch := queue.AddRef();
      epochCounter := epoch;
    }

    constructor MoveFrom(other: EpochRefPolicy)
      modifies other`epochCounter
      ensures epochRefManager == other.epochRefManager
      ensures epochCounter == old(other.epochCounter) && other.epochCounter == MOVED_FROM
    {
      epochRefManager := other.epochRefManager;
      epochCounter := other.epochCounter;
      new;
      other.epochCounter := MOVED_FROM;
    }

    /** The destructor, exactly as the state machine destroys the policy. */
    method Destroy(ghost s: State, ghost p: PolicyId) returns (ok: bool)
      requires epochRefManager.Valid() && s.ring == epochRefManager.View()
      requires p in s.policies && s.policies[p] == epochCounter
      modifies epochRefManager.refCounts
      ensures epochRefManager.Valid()
      ensures match DestroyPolicy(s, p)
        case Next(t) => ok && epochRefManager.View() == t.ring
        case _ => !ok && epochRefManager.View() == s.ring
    {
      ok := true;
      if epochCounter != MOVED_FROM {
        ok := epochRefManager.RemoveRef(epochCounter);
      }
    }
  }
}
