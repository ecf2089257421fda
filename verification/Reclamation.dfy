/** The reclamation protocol of LocalMemory/EpochManager.h as a state machine. Readers hold epoch
    references, writers unlink records and register their release, and one processing thread
    advances the front, sweeps the queues, runs the actions and opens a new epoch. Every step below
    is one atomic action of one thread, so a run is an arbitrary interleaving of all of them. */
module Reclamation {
  import opened Wrappers
  import opened EpochRing
  import Tokens = EpochTokens
  import opened EpochActions

  // A record buffer from allocation to release; an address that is allocated again is a new one.
  datatype Record = Record(id: nat)
  type WriterId = nat
  type PolicyId = Tokens.PolicyId

  /** Where the processing thread is: in the loop of RemoveUnreferenceEpochCounters (Passing is
      between finding a zero count and the increment of the front), in PerformActions, or before
      one of the two increments of EpochManager::Add. */
  datatype Phase =
    | Advancing
    | Passing
    | Sweeping(bound: nat, next: nat)
    | Applying(count: nat)
    | FirstIncrement
    | SecondIncrement

  /** A writer between the store that unlinks a record and the end of RegisterAction. */
  datatype Writer =
    | Unlinked(record: Record)
    | Stamped(record: Record, epoch: nat)
    | Queued

  datatype State = State(
    tokens: Tokens.State,               // the epoch queue and the policies that hold references
    current: nat,                       // m_currentEpochCounter
    held: map<PolicyId, set<Record>>,   // what each reader has loaded under its reference
    linked: set<Record>,                // what the table points to
    writers: map<WriterId, Writer>,
    queues: seq<Queue<Record>>,
    phase: Phase,
    batch: seq<Record>,                 // actions moved out of the queues and not yet run
    freed: seq<Record>,                 // actions run, in order
    created: set<Record>,              // every record buffer ever allocated
    pendingCount: int                   // PendingActionsCount
  )

  datatype Label =
    | Construct(p: PolicyId)
    | Move(source: PolicyId, target: PolicyId)
    | Destroy(p: PolicyId)
    | Load(p: PolicyId, record: Record)
    | Store(w: WriterId, removed: Option<Record>, added: Option<Record>)
    | Stamp(w: WriterId)
    | Enqueue(w: WriterId, queue: nat)
    | CountPending(w: WriterId)
    | Probe
    | IncrementFront
    | SweepQueue
    | RunAction
    | FinishActions
    | Increment

  function Initial(queueSize: nat, queues: nat): State {
    State(Tokens.Initial(0, queueSize), 0, map[], {}, map[], seq(queues, _ => []), Advancing, [], [], {}, 0)
  }

  /** A reader may load only what is linked at that instant, and only under a reference. */
  function LoadStep(s: State, p: PolicyId, r: Record): Option<State> {
    if p in s.tokens.policies && s.tokens.policies[p] != Tokens.MOVED_FROM && r in s.linked then
      Some(s.(held := s.held[p := HeldBy(s, p) + {r}]))
    else None
  }

  function HeldBy(s: State, p: PolicyId): set<Record> {
    if p in s.held then s.held[p] else {}
  }

  /** The reader that a policy was moved to goes on with what the old one had loaded. */
  function MoveHeld(held: map<PolicyId, set<Record>>, source: PolicyId, target: PolicyId): map<PolicyId, set<Record>> {
    if source in held then held[target := held[source]] - {source} else held
  }

  function TokenStep(s: State, op: Tokens.Op, held: map<PolicyId, set<Record>>): Option<State>
    requires s.tokens.ring.Sized()
  {
    match Tokens.Step(s.tokens, op)
    case Next(t) => Some(s.(tokens := t, held := held))
    case _ => None
  }

  /** The store of UpdateRecord: the record removed, if any, leaves the table and the writer goes on to
      register its release; the one added, if any, is freshly allocated. */
  function StoreStep(s: State, w: WriterId, removed: Option<Record>, added: Option<Record>): Option<State> {
    if w in s.writers || (removed.Some? && removed.value !in s.linked) then None
    else if added.Some? && added.value in s.created then None
    else
      var unlinked := if removed.Some? then s.linked - {removed.value} else s.linked;
      Some(s.(
        linked := if added.Some? then unlinked + {added.value} else unlinked,
        created := if added.Some? then s.created + {added.value} else s.created,
        writers := if removed.Some? then s.writers[w := Unlinked(removed.value)] else s.writers))
  }

  /** RegisterAction reads the counter, and only later inserts at the epoch it read. */
  function StampStep(s: State, w: WriterId): Option<State> {
    if w in s.writers && s.writers[w].Unlinked? then
      Some(s.(writers := s.writers[w := Stamped(s.writers[w].record, s.current)]))
    else None
  }

  /** Any queue may be chosen; EpochActionManager chooses them in turn. */
  function EnqueueStep(s: State, w: WriterId, i: nat): Option<State> {
    if w in s.writers && s.writers[w].Stamped? && i < |s.queues| then
      var q := Insert(s.queues[i], s.writers[w].epoch, s.writers[w].record);
      Some(s.(writers := s.writers[w := Queued], queues := s.queues[i := q]))
    else None
  }

  function CountStep(s: State, w: WriterId): Option<State> {
    if w in s.writers && s.writers[w].Queued? then
      Some(s.(writers := s.writers - {w}, pendingCount := s.pendingCount + 1))
    else None
  }

  /** One test of the loop guard: either the front epoch is seen unreferenced, or the loop ends and
      PerformActions starts with the front as its bound. */
  function ProbeStep(s: State): Option<State>
    requires s.tokens.ring.Sized()
  {
    if s.phase != Advancing then None
    else if s.tokens.ring.CanAdvance() then Some(s.(phase := Passing))
    else Some(s.(phase := Sweeping(s.tokens.ring.front, 0)))
  }

  function IncrementFrontStep(s: State): Option<State> {
    if s.phase != Passing then None
    else Some(s.(phase := Advancing, tokens := s.tokens.(ring := s.tokens.ring.Advance())))
  }

  /** One queue is swept under its lock; after the last one the actions are run. */
  function SweepStep(s: State): Option<State> {
    if !s.phase.Sweeping? then None
    else if s.phase.next >= |s.queues| then Some(s.(phase := Applying(|s.batch|)))
    else
      var i, bound := s.phase.next, s.phase.bound;
      Some(s.(
        batch := s.batch + Taken(s.queues[i], bound),
        queues := s.queues[i := Left(s.queues[i], bound)],
        phase := Sweeping(bound, i + 1)))
  }

  function RunActionStep(s: State): Option<State> {
    if !s.phase.Applying? || s.batch == [] then None
    else Some(s.(freed := s.freed + [s.batch[0]], batch := s.batch[1..]))
  }

  function FinishStep(s: State): Option<State> {
    if !s.phase.Applying? || s.batch != [] then None
    else Some(s.(phase := FirstIncrement, pendingCount := s.pendingCount - s.phase.count))
  }

  /** The two increments of EpochManager::Add. The source increments the current epoch counter
      first; the flag also admits the other order. The back stays below the sentinel of
      EpochRefPolicy. */
  function IncrementStep(counterFirst: bool, s: State): Option<State> {
    if !s.phase.FirstIncrement? && !s.phase.SecondIncrement? then None
    else
      var next := if s.phase.FirstIncrement? then SecondIncrement else Advancing;
      if s.phase.FirstIncrement? == counterFirst then Some(s.(current := s.current + 1, phase := next))
      else if s.tokens.ring.back + 1 >= Tokens.MOVED_FROM then None
      else Some(s.(tokens := s.tokens.(ring := s.tokens.ring.AddNewEpoch()), phase := next))
  }

  function Step(counterFirst: bool, s: State, l: Label): Option<State>
    requires s.tokens.ring.Sized()
  {
    match l
    case Construct(p) => TokenStep(s, Tokens.Construct(p), s.held)
    case Move(source, target) =>
      TokenStep(s, Tokens.Move(source, target), MoveHeld(s.held, source, target))
    case Destroy(p) => TokenStep(s, Tokens.Destroy(p), s.held - {p})
    case Load(p, r) => LoadStep(s, p, r)
    case Store(w, removed, added) => StoreStep(s, w, removed, added)
    case Stamp(w) => StampStep(s, w)
    case Enqueue(w, i) => EnqueueStep(s, w, i)
    case CountPending(w) => CountStep(s, w)
    case Probe => ProbeStep(s)
    case IncrementFront => IncrementFrontStep(s)
    case SweepQueue => SweepStep(s)
    case RunAction => RunActionStep(s)
    case FinishActions => FinishStep(s)
    case Increment => IncrementStep(counterFirst, s)
  }

  function Run(counterFirst: bool, s: State, labels: seq<Label>): (t: Option<State>)
    requires s.tokens.ring.Sized()
    ensures t.Some? ==> t.value.tokens.ring.Sized()
    decreases |labels|
  {
    if labels == [] then Some(s)
    else
      match Step(counterFirst, s, labels[0])
      case None => None
      case Some(t) => if t.tokens.ring.Sized() then Run(counterFirst, t, labels[1..]) else None
  }

  // ----- safety -----

  /** No reader holds a record whose release has run, and no release has run twice. */
  ghost predicate Safe(s: State) {
    && (forall p, r :: p in s.held && r in s.held[p] ==> r !in s.freed)
    && (forall r :: multiset(s.freed)[r] <= 1)
  }

  // ----- the invariant -----

  /** The counter of the processing thread never falls behind the back of the queue. With the other
      order of the increments it does, but in a ring of one slot never behind the front. */
  ghost predicate Clocked(counterFirst: bool, s: State) {
    var half := if s.phase.SecondIncrement? then 1 else 0;
    if counterFirst then
      s.current == s.tokens.ring.back + half
    else
      && s.current + half == s.tokens.ring.back && s.tokens.ring.front <= s.current
      && |s.tokens.ring.counts| == 1
  }

  /** The epoch before which nothing that policy p may hold is released: its own one or, in the other
      order and with a single slot, the front, which moves on only when there was no reference. */
  ghost function Pin(counterFirst: bool, s: State, p: PolicyId): nat
    requires p in s.tokens.policies
  {
    if counterFirst then s.tokens.policies[p] else s.tokens.ring.front + if s.phase.Passing? then 1 else 0
  }

  ghost predicate PhaseOk(s: State) {
    && (s.phase.Passing? ==>
          && s.tokens.ring.front < s.tokens.ring.back
          && forall p :: Tokens.Live(s.tokens.policies, p) ==> s.tokens.policies[p] != s.tokens.ring.front)
    && (s.phase.Sweeping? ==> s.phase.bound == s.tokens.ring.front)
    && (!s.phase.Sweeping? && !s.phase.Applying? ==> s.batch == [])
  }

  ghost function HandlersOf(writers: map<WriterId, Writer>, r: Record): set<WriterId> {
    set w | w in writers && !writers[w].Queued? && writers[w].record == r
  }

  /** The number of places a record is in: the table, a writer's hands, a queue, the batch being
      performed, or the released ones. */
  ghost function Places(s: State, r: Record): nat {
    (if r in s.linked then 1 else 0)
    + |HandlersOf(s.writers, r)|
    + multiset(FlattenAll(s.queues))[r]
    + multiset(s.batch)[r]
    + multiset(s.freed)[r]
  }

  /** Every allocated record is in exactly one place. */
  ghost predicate Conserved(s: State) {
    forall r :: Places(s, r) == if r in s.created then 1 else 0
  }

  /** A release registered, or about to be, for a record loaded under epoch e is at e or later. */
  ghost predicate ReleasedNotBefore(s: State, r: Record, e: nat) {
    && r in s.created && r !in s.batch && r !in s.freed
    && (forall w :: w in s.writers && s.writers[w].Stamped? && s.writers[w].record == r ==> s.writers[w].epoch >= e)
    && (forall i, c: nat :: 0 <= i < |s.queues| && Waits(s.queues[i], c, r) ==> c >= e)
  }

  ghost predicate Protected(counterFirst: bool, s: State) {
    forall p :: p in s.held ==>
      Tokens.Live(s.tokens.policies, p)
      && forall r :: r in s.held[p] ==> ReleasedNotBefore(s, r, Pin(counterFirst, s, p))
  }

  ghost function Uncounted(writers: map<WriterId, Writer>): set<WriterId> {
    set w | w in writers && writers[w].Queued?
  }

  /** PendingActionsCount counts what waits or is being performed, up to the registrations that
      have inserted their action but not yet incremented the counter. */
  ghost predicate PendingExact(s: State) {
    s.pendingCount + |Uncounted(s.writers)|
      == |FlattenAll(s.queues)|
         + if s.phase.Sweeping? then |s.batch| else if s.phase.Applying? then s.phase.count else 0
  }

  ghost predicate Inv(counterFirst: bool, s: State) {
    && Tokens.Inv(s.tokens) && Clocked(counterFirst, s) && PhaseOk(s) && AllSorted(s.queues)
    && Conserved(s) && Protected(counterFirst, s) && PendingExact(s)
  }

  lemma InvIsSafe(counterFirst: bool, s: State)
    requires Inv(counterFirst, s)
    ensures Safe(s)
  {
    forall r ensures multiset(s.freed)[r] <= 1 {
      assert Places(s, r) <= 1;
    }
  }

  // ----- which parts of the state each part of the invariant reads -----

  lemma ConservedFrame(s: State, t: State)
    requires Conserved(s)
    requires t.linked == s.linked && t.queues == s.queues && t.batch == s.batch && t.freed == s.freed
    requires t.created == s.created
    requires forall r :: HandlersOf(t.writers, r) == HandlersOf(s.writers, r)
    ensures Conserved(t)
  {
    forall r ensures Places(t, r) == if r in t.created then 1 else 0 {
      assert Places(t, r) == Places(s, r);
    }
  }

  lemma ProtectedFrame(counterFirst: bool, s: State, t: State)
    requires Protected(counterFirst, s)
    requires t.queues == s.queues && t.writers == s.writers && t.batch == s.batch && t.freed == s.freed
    requires t.created == s.created
    requires t.held == s.held && t.tokens.policies == s.tokens.policies
    requires forall p :: p in s.tokens.policies ==> Pin(counterFirst, s, p) == Pin(counterFirst, t, p)
    ensures Protected(counterFirst, t)
  {
    forall p, r | p in t.held && r in t.held[p] ensures ReleasedNotBefore(t, r, Pin(counterFirst, t, p)) {
      assert ReleasedNotBefore(s, r, Pin(counterFirst, s, p));
    }
  }

  // ----- readers -----

  /** The steps of a policy leave the front, the back and the epochs of the other policies alone. */
  lemma TokenStepKeepsOthers(t: Tokens.State, op: Tokens.Op)
    requires Tokens.Inv(t) && (op.Construct? || op.Move? || op.Destroy?) && Tokens.Step(t, op).Next?
    ensures var u := Tokens.Step(t, op).state;
      && Tokens.Inv(u) && u.ring.front == t.ring.front && u.ring.back == t.ring.back
      && |u.ring.counts| == |t.ring.counts|
      && u.policies == match op
        case Construct(p) => t.policies[p := t.ring.back]
        case Move(source, target) => t.policies[target := t.policies[source]][source := Tokens.MOVED_FROM]
        case Destroy(p) => t.policies - {p}
  {
    Tokens.StepKeepsInv(t, op);
  }

  lemma ReaderStepKeepsRest(counterFirst: bool, s: State, t: State, op: Tokens.Op)
    requires Inv(counterFirst, s) && (op.Construct? || op.Move? || op.Destroy?)
    requires t == s.(tokens := t.tokens, held := t.held) && Tokens.Step(s.tokens, op) == Tokens.Next(t.tokens)
    ensures Tokens.Inv(t.tokens) && Clocked(counterFirst, t) && PhaseOk(t) && AllSorted(t.queues) && Conserved(t)
    ensures PendingExact(t)
  {
    TokenStepKeepsOthers(s.tokens, op);
    assert Conserved(t) by {
      ConservedFrame(s, t);
    }
    hide Conserved, Protected, Tokens.Inv, AllSorted, Tokens.Step;
    assert PhaseOk(t) by {
      if t.phase.Passing? {
        forall p | Tokens.Live(t.tokens.policies, p) ensures t.tokens.policies[p] != t.tokens.ring.front {
          if op.Construct? && p == op.p {
          } else if op.Move? && p == op.target {
            assert Tokens.Live(s.tokens.policies, op.source);
          } else {
            assert Tokens.Live(s.tokens.policies, p);
          }
        }
      }
    }
  }

  lemma ReleasedFrame(s: State, t: State, r: Record, e: nat)
    requires ReleasedNotBefore(s, r, e)
    requires t.queues == s.queues && t.writers == s.writers && t.batch == s.batch && t.freed == s.freed
    requires t.created == s.created
    ensures ReleasedNotBefore(t, r, e)
  {
  }

  lemma NewPolicy(t: Tokens.State, p: PolicyId)
    requires t.ring.Sized() && Tokens.Step(t, Tokens.Construct(p)).Next?
    ensures p !in t.policies
  {
  }

  lemma ConstructKeepsInv(counterFirst: bool, s: State, p: PolicyId)
    requires Inv(counterFirst, s) && Tokens.Step(s.tokens, Tokens.Construct(p)).Next?
    ensures Inv(counterFirst, s.(tokens := Tokens.Step(s.tokens, Tokens.Construct(p)).state))
  {
    hide Conserved, Tokens.Inv, AllSorted, Tokens.Step, ReleasedNotBefore, Clocked, PhaseOk, PendingExact;
    BoundedOfInv(s.tokens);
    var op := Tokens.Construct(p);
    var t := s.(tokens := Tokens.Step(s.tokens, op).state);
    ReaderStepKeepsRest(counterFirst, s, t, op);
    NewPolicy(s.tokens, p);
    TokenStepKeepsOthers(s.tokens, op);
    forall q, r | q in t.held && r in t.held[q] ensures ReleasedNotBefore(t, r, Pin(counterFirst, t, q)) {
      ReleasedFrame(s, t, r, Pin(counterFirst, t, q));
    }
  }

  lemma MoveKeepsInv(counterFirst: bool, s: State, source: PolicyId, target: PolicyId)
    requires Inv(counterFirst, s) && Tokens.Step(s.tokens, Tokens.Move(source, target)).Next?
    ensures Inv(counterFirst, s.(tokens := Tokens.Step(s.tokens, Tokens.Move(source, target)).state,
                                 held := MoveHeld(s.held, source, target)))
  {
    var op := Tokens.Move(source, target);
    var t := s.(tokens := Tokens.Step(s.tokens, op).state, held := MoveHeld(s.held, source, target));
    ReaderStepKeepsRest(counterFirst, s, t, op);
    TokenStepKeepsOthers(s.tokens, op);
    assert source in s.tokens.policies && target !in s.tokens.policies;
    hide Conserved, Tokens.Inv, AllSorted, Tokens.Step, ReleasedNotBefore, Clocked, PhaseOk, PendingExact;
    forall q | q in t.held ensures Tokens.Live(t.tokens.policies, q) {
      var was := if q == target then source else q;
      assert Tokens.Live(s.tokens.policies, was);
    }
    forall q, r | q in t.held && r in t.held[q] ensures ReleasedNotBefore(t, r, Pin(counterFirst, t, q)) {
      var was := if q == target then source else q;
      assert Tokens.Live(s.tokens.policies, was) && r in s.held[was];
      ReleasedFrame(s, t, r, Pin(counterFirst, t, q));
    }
  }

  lemma DestroyKeepsInv(counterFirst: bool, s: State, p: PolicyId)
    requires Inv(counterFirst, s) && Tokens.Step(s.tokens, Tokens.Destroy(p)).Next?
    ensures Inv(counterFirst, s.(tokens := Tokens.Step(s.tokens, Tokens.Destroy(p)).state, held := s.held - {p}))
  {
    hide Conserved, Tokens.Inv, AllSorted, Tokens.Step, ReleasedNotBefore, Clocked, PhaseOk, PendingExact;
    BoundedOfInv(s.tokens);
    var op := Tokens.Destroy(p);
    var t := s.(tokens := Tokens.Step(s.tokens, op).state, held := s.held - {p});
    ReaderStepKeepsRest(counterFirst, s, t, op);
    TokenStepKeepsOthers(s.tokens, op);
    forall q, r | q in t.held && r in t.held[q] ensures ReleasedNotBefore(t, r, Pin(counterFirst, t, q)) {
      ReleasedFrame(s, t, r, Pin(counterFirst, t, q));
    }
  }

  /** A linked record is in no writer's hands, waits nowhere and has not been released. */
  lemma LinkedIsNowhereElse(s: State, r: Record, e: nat)
    requires Conserved(s) && r in s.linked
    ensures ReleasedNotBefore(s, r, e)
    ensures HandlersOf(s.writers, r) == {}
  {
    assert Places(s, r) == 1;
    assert r !in FlattenAll(s.queues) && HandlersOf(s.writers, r) == {};
    forall w | w in s.writers && s.writers[w].Stamped? ensures s.writers[w].record != r {
      assert w !in HandlersOf(s.writers, r);
    }
    forall i, c: nat | 0 <= i < |s.queues| ensures !Waits(s.queues[i], c, r) {
      if Waits(s.queues[i], c, r) {
        WaitingIsListed(s.queues, i, c, r);
        assert false;
      }
    }
  }

  lemma LoadKeepsInv(counterFirst: bool, s: State, p: PolicyId, r: Record)
    requires Inv(counterFirst, s) && LoadStep(s, p, r).Some?
    ensures Inv(counterFirst, LoadStep(s, p, r).value)
  {
    hide Conserved, Tokens.Inv, AllSorted, ReleasedNotBefore, FlattenAll;
    var t := LoadStep(s, p, r).value;
    LinkedIsNowhereElse(s, r, Pin(counterFirst, s, p));
    ConservedFrame(s, t);
    forall q, x | q in t.held && x in t.held[q] ensures ReleasedNotBefore(t, x, Pin(counterFirst, t, q)) {
      if q == p && x == r {
        ReleasedFrame(s, t, x, Pin(counterFirst, t, q));
      } else {
        assert q in s.held && x in s.held[q];
        ReleasedFrame(s, t, x, Pin(counterFirst, t, q));
      }
    }
  }

  // ----- writers -----

  lemma StoreConserves(s: State, w: WriterId, removed: Option<Record>, added: Option<Record>)
    requires Conserved(s) && StoreStep(s, w, removed, added).Some?
    ensures Conserved(StoreStep(s, w, removed, added).value)
  {
    hide FlattenAll, HandlersOf;
    var t := StoreStep(s, w, removed, added).value;
    forall r ensures Places(t, r) == if r in t.created then 1 else 0 {
      assert Places(s, r) == if r in s.created then 1 else 0;
      if removed.Some? {
        NewHandler(s.writers, w, removed.value, r);
      }
      assert Places(t, r) == Places(s, r) + if added == Some(r) then 1 else 0;
    }
  }

  lemma NewHandler(writers: map<WriterId, Writer>, w: WriterId, removed: Record, r: Record)
    requires w !in writers
    ensures |HandlersOf(writers[w := Unlinked(removed)], r)|
      == |HandlersOf(writers, r)| + if removed == r then 1 else 0
  {
    var after := writers[w := Unlinked(removed)];
    if removed == r {
      assert HandlersOf(after, r) == HandlersOf(writers, r) + {w};
    } else {
      assert HandlersOf(after, r) == HandlersOf(writers, r);
    }
  }

  lemma StoreKeepsInv(counterFirst: bool, s: State, w: WriterId, removed: Option<Record>, added: Option<Record>)
    requires Inv(counterFirst, s) && StoreStep(s, w, removed, added).Some?
    ensures Inv(counterFirst, StoreStep(s, w, removed, added).value)
  {
    var t := StoreStep(s, w, removed, added).value;
    StoreConserves(s, w, removed, added);
    hide Conserved, Tokens.Inv, AllSorted;
    assert Uncounted(t.writers) == Uncounted(s.writers);
    forall q, r | q in t.held && r in t.held[q] ensures ReleasedNotBefore(t, r, Pin(counterFirst, t, q)) {
      assert ReleasedNotBefore(s, r, Pin(counterFirst, s, q));
    }
  }

  /** The counter that is read is not below what protects a live reference. */
  lemma CounterIsNotBehind(counterFirst: bool, s: State, p: PolicyId)
    requires Clocked(counterFirst, s) && PhaseOk(s) && Tokens.Bounded(s.tokens) && Tokens.Live(s.tokens.policies, p)
    ensures s.current >= Pin(counterFirst, s, p)
  {
  }

  lemma StampKeepsInv(counterFirst: bool, s: State, w: WriterId)
    requires Inv(counterFirst, s) && StampStep(s, w).Some?
    ensures Inv(counterFirst, StampStep(s, w).value)
  {
    var t := StampStep(s, w).value;
    assert Conserved(t) by {
      forall r ensures HandlersOf(t.writers, r) == HandlersOf(s.writers, r) {}
      ConservedFrame(s, t);
    }
    hide Conserved, AllSorted, Tokens.CountsExact, Tokens.Linear;
    assert Uncounted(t.writers) == Uncounted(s.writers);
    forall q, r | q in t.held && r in t.held[q] ensures ReleasedNotBefore(t, r, Pin(counterFirst, t, q)) {
      assert ReleasedNotBefore(s, r, Pin(counterFirst, s, q));
      CounterIsNotBehind(counterFirst, s, q);
    }
  }

  /** A writer that has inserted its action hands the record over. */
  lemma HandedOver(writers: map<WriterId, Writer>, w: WriterId, r: Record)
    requires w in writers && writers[w].Stamped?
    ensures |HandlersOf(writers[w := Queued], r)| + (if writers[w].record == r then 1 else 0)
      == |HandlersOf(writers, r)|
  {
    if writers[w].record == r {
      assert w in HandlersOf(writers, r);
      assert HandlersOf(writers[w := Queued], r) == HandlersOf(writers, r) - {w};
    } else {
      assert HandlersOf(writers[w := Queued], r) == HandlersOf(writers, r);
    }
  }

  lemma EnqueueConserves(s: State, w: WriterId, i: nat)
    requires Conserved(s) && AllSorted(s.queues) && EnqueueStep(s, w, i).Some?
    ensures Conserved(EnqueueStep(s, w, i).value)
  {
    hide FlattenAll, Insert, AllSorted, HandlersOf;
    var t := EnqueueStep(s, w, i).value;
    InsertIntoOne(s.queues, i, s.writers[w].epoch, s.writers[w].record);
    forall r ensures Places(t, r) == if r in t.created then 1 else 0 {
      HandedOver(s.writers, w, r);
      assert Places(t, r) == Places(s, r);
    }
  }

  lemma EnqueueProtects(counterFirst: bool, s: State, w: WriterId, i: nat)
    requires Protected(counterFirst, s) && EnqueueStep(s, w, i).Some?
    ensures Protected(counterFirst, EnqueueStep(s, w, i).value)
  {
    var t := EnqueueStep(s, w, i).value;
    hide Insert, Waits;
    forall q, r | q in t.held && r in t.held[q] ensures ReleasedNotBefore(t, r, Pin(counterFirst, t, q)) {
      assert ReleasedNotBefore(s, r, Pin(counterFirst, s, q));
      forall j, c: nat | 0 <= j < |t.queues| && Waits(t.queues[j], c, r) ensures c >= Pin(counterFirst, t, q) {
        if j == i {
          InsertWaits(s.queues[i], s.writers[w].epoch, s.writers[w].record, c, r);
        }
      }
    }
  }

  lemma EnqueueKeepsInv(counterFirst: bool, s: State, w: WriterId, i: nat)
    requires Inv(counterFirst, s) && EnqueueStep(s, w, i).Some?
    ensures Inv(counterFirst, EnqueueStep(s, w, i).value)
  {
    hide Conserved, Protected, Tokens.Inv, AllSorted, FlattenAll, Insert;
    var t := EnqueueStep(s, w, i).value;
    EnqueueConserves(s, w, i);
    EnqueueProtects(counterFirst, s, w, i);
    InsertIntoOne(s.queues, i, s.writers[w].epoch, s.writers[w].record);
    assert Uncounted(t.writers) == Uncounted(s.writers) + {w};
  }

  lemma CountKeepsInv(counterFirst: bool, s: State, w: WriterId)
    requires Inv(counterFirst, s) && CountStep(s, w).Some?
    ensures Inv(counterFirst, CountStep(s, w).value)
  {
    var t := CountStep(s, w).value;
    assert Conserved(t) by {
      forall r ensures HandlersOf(t.writers, r) == HandlersOf(s.writers, r) {}
      ConservedFrame(s, t);
    }
    hide Conserved, Tokens.Inv, AllSorted;
    assert Uncounted(t.writers) == Uncounted(s.writers) - {w};
    forall q, r | q in t.held && r in t.held[q] ensures ReleasedNotBefore(t, r, Pin(counterFirst, t, q)) {
      assert ReleasedNotBefore(s, r, Pin(counterFirst, s, q));
    }
  }

  // ----- the processing thread -----

  /** A single slot that is found zero shows that there is no reference at all. */
  lemma ProbeKeepsProtected(counterFirst: bool, s: State)
    requires Inv(counterFirst, s) && ProbeStep(s).Some?
    ensures Protected(counterFirst, ProbeStep(s).value)
  {
    var t := ProbeStep(s).value;
    if counterFirst || t.phase.Sweeping? {
      ProtectedFrame(counterFirst, s, t);
    } else {
      forall p ensures !Tokens.Live(s.tokens.policies, p) {
        if Tokens.Live(s.tokens.policies, p) {
          Tokens.LiveSlotIsCounted(s.tokens, p);
        }
      }
    }
  }

  lemma ProbeKeepsInv(counterFirst: bool, s: State)
    requires Inv(counterFirst, s) && ProbeStep(s).Some?
    ensures Inv(counterFirst, ProbeStep(s).value)
  {
    var t := ProbeStep(s).value;
    ConservedFrame(s, t);
    ProbeKeepsProtected(counterFirst, s);
    hide Conserved, Protected, AllSorted, FlattenAll;
    if t.phase.Passing? {
      forall p | Tokens.Live(t.tokens.policies, p) ensures t.tokens.policies[p] != t.tokens.ring.front {
        Tokens.LiveSlotIsCounted(s.tokens, p);
      }
    }
  }

  lemma IncrementFrontKeepsInv(counterFirst: bool, s: State)
    requires Inv(counterFirst, s) && IncrementFrontStep(s).Some?
    ensures Inv(counterFirst, IncrementFrontStep(s).value)
  {
    var t := IncrementFrontStep(s).value;
    assert Conserved(t) by {
      ConservedFrame(s, t);
    }
    assert Protected(counterFirst, t) by {
      ProtectedFrame(counterFirst, s, t);
    }
  }

  lemma SweepConservesPlaces(s: State)
    requires Conserved(s) && AllSorted(s.queues) && s.phase.Sweeping? && s.phase.next < |s.queues|
    ensures Conserved(SweepStep(s).value)
  {
    var t := SweepStep(s).value;
    SweepOfOne(s.queues, s.phase.next, s.phase.bound);
    hide FlattenAll, Taken, Left, AllSorted;
    forall r ensures Places(t, r) == if r in t.created then 1 else 0 {
      assert Places(t, r) == Places(s, r);
    }
  }

  /** Nothing that a reader holds is below the bound, because the bound is the front. */
  lemma SweepProtects(counterFirst: bool, s: State)
    requires Protected(counterFirst, s) && PhaseOk(s) && Tokens.Bounded(s.tokens) && AllSorted(s.queues)
    requires s.phase.Sweeping? && s.phase.next < |s.queues|
    ensures Protected(counterFirst, SweepStep(s).value)
  {
    var t := SweepStep(s).value;
    var i, bound := s.phase.next, s.phase.bound;
    hide Waits, Taken, Left, Sorted;
    forall q, r | q in t.held && r in t.held[q] ensures ReleasedNotBefore(t, r, Pin(counterFirst, t, q)) {
      assert ReleasedNotBefore(s, r, Pin(counterFirst, s, q));
      assert Tokens.Live(s.tokens.policies, q);
      SweptRecord(s.queues[i], bound, r, Pin(counterFirst, s, q));
    }
  }

  lemma SweptRecord(q: Queue<Record>, bound: nat, r: Record, e: nat)
    requires Sorted(q) && bound <= e
    requires forall c: nat :: Waits(q, c, r) ==> c >= e
    ensures r !in Taken(q, bound)
    ensures forall c: nat :: Waits(Left(q, bound), c, r) ==> c >= e
  {
    SweepIsExact(q, bound);
  }

  lemma SweepKeepsInv(counterFirst: bool, s: State)
    requires Inv(counterFirst, s) && SweepStep(s).Some?
    ensures Inv(counterFirst, SweepStep(s).value)
  {
    hide Conserved, Protected, Tokens.Inv, AllSorted, Taken, Left, FlattenAll;
    var t := SweepStep(s).value;
    if s.phase.next >= |s.queues| {
      ConservedFrame(s, t);
      ProtectedFrame(counterFirst, s, t);
    } else {
      assert Tokens.Bounded(s.tokens) by {
        BoundedOfInv(s.tokens);
      }
      SweepConservesPlaces(s);
      SweepProtects(counterFirst, s);
      SweepOfOne(s.queues, s.phase.next, s.phase.bound);
    }
  }

  lemma BoundedOfInv(t: Tokens.State)
    requires Tokens.Inv(t)
    ensures t.ring.Sized() && Tokens.Bounded(t)
  {
  }

  lemma RunActionKeepsInv(counterFirst: bool, s: State)
    requires Inv(counterFirst, s) && RunActionStep(s).Some?
    ensures Inv(counterFirst, RunActionStep(s).value)
  {
    var t := RunActionStep(s).value;
    assert s.batch == [s.batch[0]] + t.batch;
    forall r ensures Places(t, r) == if r in t.created then 1 else 0 {
      assert Places(t, r) == Places(s, r);
    }
    hide Conserved, Tokens.Inv, AllSorted, Waits, FlattenAll;
    forall q, r | q in t.held && r in t.held[q] ensures ReleasedNotBefore(t, r, Pin(counterFirst, t, q)) {
      assert ReleasedNotBefore(s, r, Pin(counterFirst, s, q));
    }
  }

  lemma FinishKeepsInv(counterFirst: bool, s: State)
    requires Inv(counterFirst, s) && FinishStep(s).Some?
    ensures Inv(counterFirst, FinishStep(s).value)
  {
    var t := FinishStep(s).value;
    assert Conserved(t) by {
      ConservedFrame(s, t);
    }
    assert Protected(counterFirst, t) by {
      ProtectedFrame(counterFirst, s, t);
    }
  }

  lemma IncrementKeepsInv(counterFirst: bool, s: State)
    requires Inv(counterFirst, s) && IncrementStep(counterFirst, s).Some?
    ensures Inv(counterFirst, IncrementStep(counterFirst, s).value)
  {
    var t := IncrementStep(counterFirst, s).value;
    assert Conserved(t) by {
      ConservedFrame(s, t);
    }
    assert Protected(counterFirst, t) by {
      ProtectedFrame(counterFirst, s, t);
    }
  }

  // ----- every run -----

  lemma StepKeepsInv(counterFirst: bool, s: State, l: Label)
    requires Inv(counterFirst, s) && Step(counterFirst, s, l).Some?
    ensures Inv(counterFirst, Step(counterFirst, s, l).value)
  {
    hide Inv, Tokens.Step;
    match l
    case Construct(p) => ConstructKeepsInv(counterFirst, s, p);
    case Move(source, target) => MoveKeepsInv(counterFirst, s, source, target);
    case Destroy(p) => DestroyKeepsInv(counterFirst, s, p);
    case Load(p, r) => LoadKeepsInv(counterFirst, s, p, r);
    case Store(w, removed, added) => StoreKeepsInv(counterFirst, s, w, removed, added);
    case Stamp(w) => StampKeepsInv(counterFirst, s, w);
    case Enqueue(w, i) => EnqueueKeepsInv(counterFirst, s, w, i);
    case CountPending(w) => CountKeepsInv(counterFirst, s, w);
    case Probe => ProbeKeepsInv(counterFirst, s);
    case IncrementFront => IncrementFrontKeepsInv(counterFirst, s);
    case SweepQueue => SweepKeepsInv(counterFirst, s);
    case RunAction => RunActionKeepsInv(counterFirst, s);
    case FinishActions => FinishKeepsInv(counterFirst, s);
    case Increment => IncrementKeepsInv(counterFirst, s);
  }

  lemma InitialInv(counterFirst: bool, queueSize: nat, queues: nat)
    requires queueSize > 0 && (counterFirst || queueSize == 1)
    ensures Inv(counterFirst, Initial(queueSize, queues))
  {
    var s := Initial(queueSize, queues);
    Tokens.InitialInv(0, queueSize);
    AllEmpty(s.queues);
    forall r ensures Places(s, r) == 0 {
      assert HandlersOf(s.writers, r) == {};
    }
    assert Uncounted(s.writers) == {};
  }

  lemma {:induction false} RunKeepsInv(counterFirst: bool, s: State, labels: seq<Label>)
    requires Inv(counterFirst, s) && Run(counterFirst, s, labels).Some?
    ensures Inv(counterFirst, Run(counterFirst, s, labels).value)
    decreases |labels|
  {
    if labels != [] {
      StepKeepsInv(counterFirst, s, labels[0]);
      var t := Step(counterFirst, s, labels[0]).value;
      hide Conserved, Protected, PendingExact, PhaseOk, Step;
      RunKeepsInv(counterFirst, t, labels[1..]);
    }
  }

  lemma RunIsSafe(counterFirst: bool, queueSize: nat, queues: nat, labels: seq<Label>)
    requires queueSize > 0 && (counterFirst || queueSize == 1)
    requires Run(counterFirst, Initial(queueSize, queues), labels).Some?
    ensures Safe(Run(counterFirst, Initial(queueSize, queues), labels).value)
  {
    hide Inv, Run;
    InitialInv(counterFirst, queueSize, queues);
    RunKeepsInv(counterFirst, Initial(queueSize, queues), labels);
    InvIsSafe(counterFirst, Run(counterFirst, Initial(queueSize, queues), labels).value);
  }

  /** Reclamation is safe in every interleaving, for every ring size and number of queues. */
  lemma EveryRunIsSafe(queueSize: nat, queues: nat, labels: seq<Label>)
    requires queueSize > 0 && Run(true, Initial(queueSize, queues), labels).Some?
    ensures Safe(Run(true, Initial(queueSize, queues), labels).value)
  {
    hide Inv, Run;
    InitialInv(true, queueSize, queues);
    RunKeepsInv(true, Initial(queueSize, queues), labels);
    InvIsSafe(true, Run(true, Initial(queueSize, queues), labels).value);
  }

  /** Once no registration is under way and the processing thread is not performing actions, the
      counter is the number of actions that wait. */
  lemma PendingCountAtQuiescence(queueSize: nat, queues: nat, labels: seq<Label>)
    requires queueSize > 0 && Run(true, Initial(queueSize, queues), labels).Some?
    ensures var s := Run(true, Initial(queueSize, queues), labels).value;
      s.writers == map[] && !s.phase.Sweeping? && !s.phase.Applying? ==> s.pendingCount == |FlattenAll(s.queues)|
  {
    InitialInv(true, queueSize, queues);
    RunKeepsInv(true, Initial(queueSize, queues), labels);
    var s := Run(true, Initial(queueSize, queues), labels).value;
    if s.writers == map[] {
      assert Uncounted(s.writers) == {};
    }
  }

  /** Conservation: a record that was ever allocated is linked, in the hands of one writer, waiting,
      about to be released, or released, and in exactly one of these places. */
  lemma EveryRunConserves(queueSize: nat, queues: nat, labels: seq<Label>, r: Record)
    requires queueSize > 0 && Run(true, Initial(queueSize, queues), labels).Some?
    ensures var s := Run(true, Initial(queueSize, queues), labels).value;
      Places(s, r) == if r in s.created then 1 else 0
  {
    hide Run;
    InitialInv(true, queueSize, queues);
    RunKeepsInv(true, Initial(queueSize, queues), labels);
  }

  // ----- progress -----

  ghost predicate InLoop(s: State) {
    s.phase.Advancing? || s.phase.Passing?
  }

  /** No reference is counted for the epochs from lo to e. */
  ghost predicate SlotsFree(r: Ring, lo: nat, e: nat)
    requires r.Sized()
  {
    forall x :: lo <= x <= e ==> r.counts[r.Slot(x)] == 0
  }

  /** The labels lead from s to the end of the first PerformActions, and the slots of the epochs
      from lo to e stay zero while the front is being advanced. Anything else may interleave. */
  ghost predicate UndisturbedPass(s: State, labels: seq<Label>, lo: nat, e: nat)
    requires s.tokens.ring.Sized()
    decreases |labels|
  {
    && (InLoop(s) ==> SlotsFree(s.tokens.ring, lo, e))
    && if s.phase.FirstIncrement? then labels == []
       else
         && labels != [] && Step(true, s, labels[0]).Some?
         && Step(true, s, labels[0]).value.tokens.ring.Sized()
         && UndisturbedPass(Step(true, s, labels[0]).value, labels[1..], lo, e)
  }

  /** Where a record that waited in queue j at an epoch up to e must be, phase by phase. */
  ghost predicate OnItsWay(s: State, lo: nat, e: nat, j: nat, c: nat, r: Record) {
    && j < |s.queues| && lo <= s.tokens.ring.front && c <= e < s.tokens.ring.back
    && match s.phase
       case Advancing => Waits(s.queues[j], c, r)
       case Passing => Waits(s.queues[j], c, r)
       case Sweeping(bound, next) =>
         bound > e && s.tokens.ring.front > e && if j < next then r in s.batch else Waits(s.queues[j], c, r)
       case Applying(_) => s.tokens.ring.front > e && (r in s.batch || r in s.freed)
       case FirstIncrement => s.tokens.ring.front > e && r in s.freed
       case SecondIncrement => false
  }

  lemma ReaderKeepsCourse(s: State, l: Label, lo: nat, e: nat, j: nat, c: nat, r: Record)
    requires Inv(true, s) && OnItsWay(s, lo, e, j, c, r) && Step(true, s, l).Some?
    requires l.Construct? || l.Move? || l.Destroy? || l.Load? || l.Store? || l.Stamp? || l.CountPending?
    ensures OnItsWay(Step(true, s, l).value, lo, e, j, c, r)
  {
    hide Waits, Conserved, Protected, PendingExact, PhaseOk, AllSorted, Tokens.Step;
    match l
    case Construct(p) => TokenStepKeepsOthers(s.tokens, Tokens.Construct(p));
    case Move(source, target) => TokenStepKeepsOthers(s.tokens, Tokens.Move(source, target));
    case Destroy(p) => TokenStepKeepsOthers(s.tokens, Tokens.Destroy(p));
    case _ =>
  }

  lemma ThreadKeepsCourse(s: State, l: Label, lo: nat, e: nat, j: nat, c: nat, r: Record)
    requires Inv(true, s) && OnItsWay(s, lo, e, j, c, r) && Step(true, s, l).Some?
    requires InLoop(s) ==> SlotsFree(s.tokens.ring, lo, e)
    requires l.Enqueue? || l.Probe? || l.IncrementFront? || l.SweepQueue? || l.RunAction? || l.FinishActions?
    ensures OnItsWay(Step(true, s, l).value, lo, e, j, c, r)
  {
    hide Waits, Conserved, Protected, PendingExact, Insert, Taken, Left, Sorted;
    match l
    case Enqueue(w, i) =>
      if i == j {
        InsertWaits(s.queues[i], s.writers[w].epoch, s.writers[w].record, c, r);
      }
    case SweepQueue =>
      if s.phase.next == j {
        SweepIsExact(s.queues[j], s.phase.bound);
      }
    case RunAction =>
      assert s.batch == [s.batch[0]] + s.batch[1..];
    case _ =>
  }

  /** Progress: if no reference reaches the slots of the epochs from the front to e while the front
      advances, the pass ends with the front beyond e and with every action that waited at e or
      below performed, whatever readers and writers do in between. */
  lemma {:induction false} PassPerformsWhatIsDue(s: State, labels: seq<Label>, lo: nat, e: nat, j: nat, c: nat,
                                                 r: Record)
    requires Inv(true, s) && OnItsWay(s, lo, e, j, c, r) && UndisturbedPass(s, labels, lo, e)
    ensures Run(true, s, labels).Some?
    ensures Run(true, s, labels).value.tokens.ring.front > e && r in Run(true, s, labels).value.freed
    decreases |labels|
  {
    if !s.phase.FirstIncrement? {
      var l := labels[0];
      StepKeepsInv(true, s, l);
      if l.Enqueue? || l.Probe? || l.IncrementFront? || l.SweepQueue? || l.RunAction? || l.FinishActions? {
        ThreadKeepsCourse(s, l, lo, e, j, c, r);
      } else if l != Increment {
        ReaderKeepsCourse(s, l, lo, e, j, c, r);
      }
      var t := Step(true, s, l).value;
      hide Inv, Step, OnItsWay;
      PassPerformsWhatIsDue(t, labels[1..], lo, e, j, c, r);
    }
  }

  // ----- from the registration to the release -----

  /** A registered release of r at epoch c: it waits there, is about to run, or has run. */
  ghost predicate RegisteredAt(s: State, r: Record, c: nat) {
    r in s.batch || r in s.freed || exists i :: 0 <= i < |s.queues| && Waits(s.queues[i], c, r)
  }

  lemma StepKeepsRegistered(s: State, l: Label, r: Record, c: nat)
    requires Inv(true, s) && RegisteredAt(s, r, c) && Step(true, s, l).Some?
    ensures RegisteredAt(Step(true, s, l).value, r, c)
  {
    hide Waits, Conserved, Protected, PendingExact, PhaseOk, Insert, Taken, Left, Sorted, Tokens.Step, Clocked;
    var t := Step(true, s, l).value;
    if i :| 0 <= i < |s.queues| && Waits(s.queues[i], c, r) {
      if l.Enqueue? {
        InsertWaits(s.queues[l.queue], s.writers[l.w].epoch, s.writers[l.w].record, c, r);
      }
      if l.SweepQueue? && s.phase.next < |s.queues| {
        SweepIsExact(s.queues[s.phase.next], s.phase.bound);
      }
      assert r in t.batch || Waits(t.queues[i], c, r);
    } else {
      assert l.RunAction? ==> s.batch == [s.batch[0]] + t.batch;
    }
  }

  lemma {:induction false} RunKeepsRegistered(s: State, labels: seq<Label>, r: Record, c: nat)
    requires Inv(true, s) && RegisteredAt(s, r, c) && Run(true, s, labels).Some?
    ensures Inv(true, Run(true, s, labels).value) && RegisteredAt(Run(true, s, labels).value, r, c)
    decreases |labels|
  {
    hide Step, RegisteredAt, Clocked, PhaseOk, Conserved, Protected, PendingExact, AllSorted;
    if labels != [] {
      StepKeepsRegistered(s, labels[0], r, c);
      StepKeepsInv(true, s, labels[0]);
      RunKeepsRegistered(Step(true, s, labels[0]).value, labels[1..], r, c);
    }
  }

  /** What has been released stays released. */
  lemma {:induction false} PassKeepsFreed(s: State, labels: seq<Label>, lo: nat, e: nat, r: Record)
    requires s.tokens.ring.Sized() && r in s.freed && UndisturbedPass(s, labels, lo, e)
    ensures Run(true, s, labels).Some? && r in Run(true, s, labels).value.freed
    decreases |labels|
  {
    if !s.phase.FirstIncrement? {
      FreedStays(s, labels[0], r);
      hide Step, SlotsFree;
      PassKeepsFreed(Step(true, s, labels[0]).value, labels[1..], lo, e, r);
    }
  }

  lemma FreedStays(s: State, l: Label, r: Record)
    requires s.tokens.ring.Sized() && r in s.freed && Step(true, s, l).Some?
    ensures r in Step(true, s, l).value.freed
  {
    hide Tokens.Step;
  }

  /** Between the two halves of RegisterAction the writer keeps the epoch that it has read. */
  lemma {:induction false} RunKeepsStamped(s: State, labels: seq<Label>, w: WriterId, r: Record, c: nat)
    requires s.tokens.ring.Sized() && w in s.writers && s.writers[w] == Stamped(r, c)
    requires Run(true, s, labels).Some? && forall i :: Enqueue(w, i) !in labels
    ensures var t := Run(true, s, labels).value;
      w in t.writers && t.writers[w] == Stamped(r, c)
    decreases |labels|
  {
    if labels != [] {
      assert labels[0] in labels;
      StepKeepsStamped(s, labels[0], w, r, c);
      hide Step;
      RunKeepsStamped(Step(true, s, labels[0]).value, labels[1..], w, r, c);
    }
  }

  lemma StepKeepsStamped(s: State, l: Label, w: WriterId, r: Record, c: nat)
    requires s.tokens.ring.Sized() && w in s.writers && s.writers[w] == Stamped(r, c)
    requires Step(true, s, l).Some? && !(l.Enqueue? && l.w == w)
    ensures var t := Step(true, s, l).value;
      w in t.writers && t.writers[w] == Stamped(r, c)
  {
    hide Tokens.Step;
  }

  /** The second half of RegisterAction: exactly this action waits in addition, in the queue chosen and
      at the epoch that the first half has read, whatever the counter says by now. */
  lemma EnqueueIsExact(s: State, w: WriterId, j: nat, i: nat, c: nat, r: Record)
    requires s.tokens.ring.Sized() && Step(true, s, Enqueue(w, j)).Some? && i < |s.queues|
    ensures w in s.writers && s.writers[w].Stamped? && j < |s.queues|
    ensures var t := Step(true, s, Enqueue(w, j)).value;
      && |t.queues| == |s.queues| && t.current == s.current && t.batch == s.batch && t.freed == s.freed
      && (Waits(t.queues[i], c, r) <==> Waits(s.queues[i], c, r) || (i == j && Stamped(r, c) == s.writers[w]))
  {
    hide Insert, Waits;
    InsertWaits(s.queues[j], s.writers[w].epoch, s.writers[w].record, c, r);
  }

  /** The store into the queue: the record waits at the epoch of the stamp. */
  lemma EnqueuedAtStamp(s: State, w: WriterId, r: Record, c: nat, j: nat)
    requires s.tokens.ring.Sized() && w in s.writers && s.writers[w] == Stamped(r, c)
    requires Run(true, s, [Enqueue(w, j)]).Some?
    ensures var t := Run(true, s, [Enqueue(w, j)]).value;
      j < |t.queues| && Waits(t.queues[j], c, r)
  {
    var t := EnqueueStep(s, w, j).value;
    assert [Enqueue(w, j)][1..] == [];
    assert Run(true, s, [Enqueue(w, j)]) == Some(t);
    hide Insert, Waits;
    InsertWaits(s.queues[j], c, r, c, r);
  }

  /** Progress from the registration on. A writer that has unlinked r reads the counter and inserts
      the release into queue j at some later time; anything else may interleave. Then a pass whose
      front moves beyond the epoch that was read, undisturbed, releases r, if the insertion came before
      the sweep of queue j: before the pass, in its loop, or before its sweep came to j. */
  lemma RegisteredIsReleased(queueSize: nat, queues: nat, s: State, w: WriterId, r: Record, between: seq<Label>,
                             t: State, j: nat, u: State, before: seq<Label>, v: State, pass: seq<Label>, lo: nat,
                             e: nat)
    requires queueSize > 0 && Reachable(true, queueSize, queues, s) && s.tokens.ring.Sized()
    requires w in s.writers && s.writers[w] == Unlinked(r)
    requires Run(true, s, [Stamp(w)] + between) == Some(t) && forall i :: Enqueue(w, i) !in between
    requires Run(true, t, [Enqueue(w, j)]) == Some(u)
    requires Run(true, u, before) == Some(v)
    requires UndisturbedPass(v, pass, lo, e)
    requires lo <= v.tokens.ring.front && s.current <= e < v.tokens.ring.back
    requires
      || InLoop(v)
      || (before == [] && v.phase.Sweeping? && v.phase.next <= j && v.tokens.ring.front > e)
    ensures Run(true, v, pass).Some? && r in Run(true, v, pass).value.freed
  {
    hide Inv, Step, UndisturbedPass, Waits, Reachable;
    var c := s.current;
    ReachableInv(queueSize, queues, s);
    StampedNow(s, w, r, between);
    RunKeepsInv(true, s, [Stamp(w)] + between);
    EnqueuedAtStamp(t, w, r, c, j);
    RunKeepsInv(true, t, [Enqueue(w, j)]);
    if InLoop(v) {
      RunKeepsRegistered(u, before, r, c);
      ReleasedByPass(v, pass, lo, e, c, r);
    } else {
      InvBound(v);
      PassPerformsWhatIsDue(v, pass, lo, e, j, c, r);
    }
  }

  lemma ReachableInv(queueSize: nat, queues: nat, s: State)
    requires queueSize > 0 && Reachable(true, queueSize, queues, s)
    ensures Inv(true, s)
  {
    hide Inv, Run;
    var labels :| Run(true, Initial(queueSize, queues), labels) == Some(s);
    InitialInv(true, queueSize, queues);
    RunKeepsInv(true, Initial(queueSize, queues), labels);
  }

  lemma InvBound(s: State)
    requires Inv(true, s)
    ensures s.phase.Sweeping? ==> s.phase.bound == s.tokens.ring.front
    ensures InLoop(s) ==> s.batch == []
  {
  }

  lemma StampedNow(s: State, w: WriterId, r: Record, between: seq<Label>)
    requires s.tokens.ring.Sized() && w in s.writers && s.writers[w] == Unlinked(r)
    requires Run(true, s, [Stamp(w)] + between).Some? && forall i :: Enqueue(w, i) !in between
    ensures var t := Run(true, s, [Stamp(w)] + between).value;
      w in t.writers && t.writers[w] == Stamped(r, s.current)
  {
    var labels, t := [Stamp(w)] + between, StampStep(s, w).value;
    assert labels[1..] == between;
    assert Step(true, s, labels[0]) == Some(t);
    hide Step;
    RunKeepsStamped(t, between, w, r, s.current);
  }

  lemma ReleasedByPass(s: State, labels: seq<Label>, lo: nat, e: nat, c: nat, r: Record)
    requires Inv(true, s) && InLoop(s) && RegisteredAt(s, r, c) && UndisturbedPass(s, labels, lo, e)
    requires lo <= s.tokens.ring.front && c <= e < s.tokens.ring.back
    ensures Run(true, s, labels).Some? && r in Run(true, s, labels).value.freed
  {
    InvBound(s);
    NothingOverdue(s);
    hide Inv, UndisturbedPass, Waits;
    if r in s.freed {
      PassKeepsFreed(s, labels, lo, e, r);
    } else {
      var j :| 0 <= j < |s.queues| && Waits(s.queues[j], c, r);
      PassPerformsWhatIsDue(s, labels, lo, e, j, c, r);
    }
  }

  // ----- which steps are possible -----

  /** A reader may take a reference, load what is linked and give its reference back at any time, and a
      writer may go on at any time; ThreadIsNeverBlocked is about the processing thread. */
  lemma OthersAreNeverBlocked(s: State)
    requires Inv(true, s)
    ensures s.tokens.ring.Sized()
    ensures forall p :: p !in s.tokens.policies ==> Step(true, s, Construct(p)).Some?
    ensures forall p :: p in s.tokens.policies ==> Step(true, s, Destroy(p)).Some?
    ensures forall p, q :: p in s.tokens.policies && q !in s.tokens.policies ==> Step(true, s, Move(p, q)).Some?
    ensures forall p, r :: Tokens.Live(s.tokens.policies, p) && r in s.linked ==> Step(true, s, Load(p, r)).Some?
    ensures forall w, gone: Option<Record>, added: Option<Record> ::
      w !in s.writers && (gone.Some? ==> gone.value in s.linked) && (added.Some? ==> added.value !in s.created) ==>
        Step(true, s, Store(w, gone, added)).Some?
    ensures forall w :: w in s.writers && s.writers[w].Unlinked? ==> Step(true, s, Stamp(w)).Some?
    ensures forall w, i :: w in s.writers && s.writers[w].Stamped? && 0 <= i < |s.queues| ==>
      Step(true, s, Enqueue(w, i)).Some?
    ensures forall w :: w in s.writers && s.writers[w].Queued? ==> Step(true, s, CountPending(w)).Some?
  {
    forall p | p in s.tokens.policies ensures Step(true, s, Destroy(p)).Some? {
      if Tokens.Live(s.tokens.policies, p) {
        Tokens.LiveSlotIsCounted(s.tokens, p);
      }
    }
  }

  /** A reader holds what it has loaded since it took its reference, also under a reference that has
      been moved. */
  lemma HeldIsWhatWasLoaded(s: State, l: Label, p: PolicyId)
    requires Inv(true, s) && Step(true, s, l).Some?
    ensures HeldBy(Step(true, s, l).value, p) ==
      match l
      case Load(q, r) => if p == q then HeldBy(s, p) + {r} else HeldBy(s, p)
      case Move(q, target) => if p == target then HeldBy(s, q) else if p == q then {} else HeldBy(s, p)
      case Destroy(q) => if p == q then {} else HeldBy(s, p)
      case _ => HeldBy(s, p)
  {
    hide Tokens.Step, Conserved, AllSorted, PhaseOk, PendingExact, Clocked, ReleasedNotBefore;
    if l.Move? {
      assert Tokens.Step(s.tokens, Tokens.Move(l.source, l.target)).Next?;
      assert l.target !in s.tokens.policies && l.source in s.tokens.policies by {
        TargetIsNew(s.tokens, l.source, l.target);
      }
    }
  }

  lemma TargetIsNew(t: Tokens.State, source: PolicyId, target: PolicyId)
    requires t.ring.Sized() && Tokens.Step(t, Tokens.Move(source, target)).Next?
    ensures target !in t.policies && source in t.policies
  {
  }

  // ----- the processing thread alone -----

  /** The steps of the processing thread within a pass. */
  predicate Own(l: Label) {
    l.Probe? || l.IncrementFront? || l.SweepQueue? || l.RunAction? || l.FinishActions?
  }

  function NextOwn(s: State): Label {
    match s.phase
    case Advancing => Probe
    case Passing => IncrementFront
    case Sweeping(_, _) => SweepQueue
    case Applying(_) => if s.batch == [] then FinishActions else RunAction
    case _ => Increment
  }

  predicate InPass(s: State) {
    !s.phase.FirstIncrement? && !s.phase.SecondIncrement?
  }

  /** A bound on the steps that the thread has still to make in its pass. */
  ghost function Remaining(s: State): int {
    var inLoop, toRun := 2 * (s.tokens.ring.back - s.tokens.ring.front), |FlattenAll(s.queues)| + |s.batch| + 1;
    match s.phase
    case Advancing => inLoop + |s.queues| + 2 + toRun
    case Passing => inLoop + |s.queues| + 1 + toRun
    case Sweeping(_, next) => (if next < |s.queues| then |s.queues| - next else 0) + 1 + toRun
    case Applying(_) => |s.batch| + 1
    case _ => 0
  }

  lemma ThreadIsNeverBlocked(s: State)
    requires s.tokens.ring.Sized() && InPass(s)
    ensures Step(true, s, NextOwn(s)).Some? && Own(NextOwn(s))
    ensures var t := Step(true, s, NextOwn(s)).value;
      t.tokens.ring.counts == s.tokens.ring.counts && !t.phase.SecondIncrement? && (InLoop(t) ==> InLoop(s))
  {
  }

  /** Each own step brings the end of the pass nearer; of the others only a registration delays it,
      by one action. */
  lemma OwnStepIsProgress(s: State, l: Label)
    requires Inv(true, s) && Step(true, s, l).Some? && l != Increment
    ensures var t := Step(true, s, l).value;
      && Remaining(t) >= 0
      && (Own(l) ==> l == NextOwn(s) && Remaining(t) < Remaining(s))
      && (l.Enqueue? ==> Remaining(t) <= Remaining(s) + 1)
      && (!Own(l) && !l.Enqueue? ==> Remaining(t) == Remaining(s))
  {
    StepKeepsInv(true, s, l);
    NothingOverdue(Step(true, s, l).value);
    if Own(l) {
      ThreadStepIsProgress(s, l);
    } else {
      OthersDoNotDelay(s, l);
    }
  }

  lemma NothingOverdue(s: State)
    requires Inv(true, s)
    ensures s.tokens.ring.Sized() && Remaining(s) >= 0
  {
    hide Conserved, Protected, PendingExact, FlattenAll, AllSorted;
  }

  lemma ThreadStepIsProgress(s: State, l: Label)
    requires Inv(true, s) && Step(true, s, l).Some? && Own(l)
    ensures l == NextOwn(s) && Remaining(Step(true, s, l).value) < Remaining(s)
  {
    hide Conserved, Protected, PendingExact, FlattenAll, Taken, Left, Tokens.Step;
    if l.SweepQueue? && s.phase.next < |s.queues| {
      SweepOfOne(s.queues, s.phase.next, s.phase.bound);
    }
  }

  lemma OthersDoNotDelay(s: State, l: Label)
    requires Inv(true, s) && Step(true, s, l).Some? && !Own(l) && l != Increment
    ensures Remaining(Step(true, s, l).value) <= Remaining(s) + (if l.Enqueue? then 1 else 0)
    ensures !l.Enqueue? ==> Remaining(Step(true, s, l).value) == Remaining(s)
  {
    hide Conserved, Protected, PendingExact, FlattenAll, Insert, Tokens.Step, Tokens.Inv, PhaseOk;
    match l
    case Construct(p) => TokenStepKeepsOthers(s.tokens, Tokens.Construct(p));
    case Move(source, target) => TokenStepKeepsOthers(s.tokens, Tokens.Move(source, target));
    case Destroy(p) => TokenStepKeepsOthers(s.tokens, Tokens.Destroy(p));
    case Enqueue(w, i) => InsertIntoOne(s.queues, i, s.writers[w].epoch, s.writers[w].record);
    case _ =>
  }

  function OwnSteps(labels: seq<Label>): nat {
    if labels == [] then 0 else (if Own(labels[0]) then 1 else 0) + OwnSteps(labels[1..])
  }

  function Enqueued(labels: seq<Label>): nat {
    if labels == [] then 0 else (if labels[0].Enqueue? then 1 else 0) + Enqueued(labels[1..])
  }

  /** Whatever interleaves, the thread makes only so many steps of its own before its pass ends. */
  lemma {:induction false} OwnStepsAreBounded(s: State, labels: seq<Label>)
    requires Inv(true, s) && Run(true, s, labels).Some? && Increment !in labels
    ensures OwnSteps(labels) <= Remaining(s) + Enqueued(labels) - Remaining(Run(true, s, labels).value)
    decreases |labels|
  {
    if labels != [] {
      OwnStepIsProgress(s, labels[0]);
      StepKeepsInv(true, s, labels[0]);
      var t := Step(true, s, labels[0]).value;
      hide Inv, Step, Remaining;
      OwnStepsAreBounded(t, labels[1..]);
    }
  }

  /** Left alone, the thread ends its pass within that bound, and no slot that is free changes. */
  lemma {:induction false} PassEnds(s: State, lo: nat, e: nat) returns (labels: seq<Label>)
    requires Inv(true, s) && !s.phase.SecondIncrement? && (InLoop(s) ==> SlotsFree(s.tokens.ring, lo, e))
    ensures UndisturbedPass(s, labels, lo, e) && |labels| <= Remaining(s)
    ensures forall l :: l in labels ==> Own(l)
    decreases Remaining(s)
  {
    hide Inv, SlotsFree, Remaining, Step;
    NothingOverdue(s);
    if s.phase.FirstIncrement? {
      labels := [];
    } else {
      var l := NextOwn(s);
      ThreadIsNeverBlocked(s);
      OwnStepIsProgress(s, l);
      StepKeepsInv(true, s, l);
      var t := Step(true, s, l).value;
      SameSlots(s, t, lo, e);
      var rest := PassEnds(t, lo, e);
      labels := [l] + rest;
      assert labels[1..] == rest;
    }
  }

  lemma SameSlots(s: State, t: State, lo: nat, e: nat)
    requires s.tokens.ring.Sized() && t.tokens.ring.counts == s.tokens.ring.counts
    ensures t.tokens.ring.Sized() && (SlotsFree(s.tokens.ring, lo, e) <==> SlotsFree(t.tokens.ring, lo, e))
  {
    forall x: nat ensures t.tokens.ring.Slot(x) == s.tokens.ring.Slot(x) {
    }
  }

  /** Any run of own steps that ends the pass is undisturbed. */
  lemma {:induction false} OwnRunIsUndisturbed(s: State, labels: seq<Label>, lo: nat, e: nat)
    requires s.tokens.ring.Sized() && (InLoop(s) ==> SlotsFree(s.tokens.ring, lo, e))
    requires Run(true, s, labels).Some? && Run(true, s, labels).value.phase.FirstIncrement?
    requires forall l :: l in labels ==> Own(l)
    ensures UndisturbedPass(s, labels, lo, e)
    decreases |labels|
  {
    hide SlotsFree;
    if labels != [] {
      assert labels[0] in labels;
      OwnStepIsNext(s, labels[0]);
      var t := Step(true, s, labels[0]).value;
      SameSlots(s, t, lo, e);
      hide Step;
      OwnRunIsUndisturbed(t, labels[1..], lo, e);
    }
  }

  lemma OwnStepIsNext(s: State, l: Label)
    requires s.tokens.ring.Sized() && Own(l) && Step(true, s, l).Some?
    ensures l == NextOwn(s) && InPass(s)
    ensures var t := Step(true, s, l).value;
      t.tokens.ring.counts == s.tokens.ring.counts && (InLoop(t) ==> InLoop(s))
  {
  }

  /** So an action that is due is performed by the pass of the thread alone. */
  lemma DueActionIsPerformed(s: State, lo: nat, e: nat, j: nat, c: nat, r: Record) returns (labels: seq<Label>)
    requires Inv(true, s) && OnItsWay(s, lo, e, j, c, r) && (InLoop(s) ==> SlotsFree(s.tokens.ring, lo, e))
    ensures |labels| <= Remaining(s) && Run(true, s, labels).Some? && r in Run(true, s, labels).value.freed
  {
    labels := PassEnds(s, lo, e);
    hide Inv, Run, UndisturbedPass, Remaining;
    PassPerformsWhatIsDue(s, labels, lo, e, j, c, r);
  }

  // ----- the order of the two increments -----

  /** s can be reached with a ring and a number of queues of the given sizes. */
  ghost predicate Reachable(counterFirst: bool, queueSize: nat, queues: nat, s: State)
    requires queueSize > 0
  {
    exists labels :: Run(counterFirst, Initial(queueSize, queues), labels) == Some(s)
  }

  lemma {:induction false} RunOneMore(counterFirst: bool, s: State, labels: seq<Label>, l: Label)
    requires s.tokens.ring.Sized() && Run(counterFirst, s, labels).Some?
    requires var t := Run(counterFirst, s, labels).value;
      t.tokens.ring.Sized() && Step(counterFirst, t, l).Some? && Step(counterFirst, t, l).value.tokens.ring.Sized()
    ensures Run(counterFirst, s, labels + [l]) == Step(counterFirst, Run(counterFirst, s, labels).value, l)
    decreases |labels|
  {
    hide Step;
    if labels == [] {
      assert labels + [l] == [l] && [l][1..] == [];
    } else {
      RunOneMore(counterFirst, Step(counterFirst, s, labels[0]).value, labels[1..], l);
      assert (labels + [l])[1..] == labels[1..] + [l];
    }
  }

  lemma ReachNext(n: nat, m: nat, s: State, l: Label, t: State)
    requires n > 0 && Reachable(false, n, m, s) && s.tokens.ring.Sized()
    requires Step(false, s, l) == Some(t) && t.tokens.ring.Sized()
    ensures Reachable(false, n, m, t)
  {
    hide Step;
    var labels :| Run(false, Initial(n, m), labels) == Some(s);
    RunOneMore(false, Initial(n, m), labels, l);
  }

  function Zeros(n: nat): (z: seq<nat>)
    ensures |z| == n && forall i :: 0 <= i < n ==> z[i] == 0
  {
    seq(n, _ => 0)
  }

  function NoActions(m: nat): (q: seq<Queue<Record>>)
    ensures |q| == m && forall i :: 0 <= i < m ==> q[i] == []
  {
    seq(m, _ => [])
  }

  /** Sweeps of queues in which nothing waits. */
  lemma {:induction false} ReachSwept(n: nat, m: nat, s: State, bound: nat, next: nat)
    requires n > 0 && Reachable(false, n, m, s) && s.tokens.ring.Sized()
    requires s.phase == Sweeping(bound, next) && next <= m && s.queues == NoActions(m)
    ensures Reachable(false, n, m, s.(phase := Applying(|s.batch|)))
    decreases m - next
  {
    hide Reachable;
    if next == m {
      ReachNext(n, m, s, SweepQueue, s.(phase := Applying(|s.batch|)));
    } else {
      var t := s.(phase := Sweeping(bound, next + 1));
      NoAction(bound);
      assert s.batch + [] == s.batch && s.queues[next := []] == s.queues;
      assert SweepStep(s) == Some(t);
      ReachNext(n, m, s, SweepQueue, t);
      ReachSwept(n, m, t, bound, next + 1);
    }
  }

  lemma NoAction(bound: nat)
    ensures Taken<Record>([], bound) == [] && Left<Record>([], bound) == []
  {
  }

  function At(front: nat, back: nat, counts: seq<nat>): Tokens.State {
    Tokens.State(Ring(front, back, counts), map[], multiset{}, multiset{})
  }

  /** The back is published as epoch 1 while the counter still says 0. */
  function BackFirst(n: nat, m: nat): State {
    State(At(0, 1, Zeros(n)), 0, map[], {}, map[], NoActions(m), SecondIncrement, [], [], {}, 0)
  }

  lemma ReachBackFirst(n: nat, m: nat)
    requires n > 0
    ensures Reachable(false, n, m, BackFirst(n, m))
  {
    var s := Initial(n, m);
    assert s.tokens.ring.counts == Zeros(n) && s.queues == NoActions(m);
    assert Run(false, s, []) == Some(s);
    assert Reachable(false, n, m, s);
    hide Reachable;
    ReachNext(n, m, s, Probe, s.(phase := Sweeping(0, 0)));
    ReachSwept(n, m, s.(phase := Sweeping(0, 0)), 0, 0);
    ReachNext(n, m, s.(phase := Applying(0)), FinishActions, s.(phase := FirstIncrement));
    ReachNext(n, m, s.(phase := FirstIncrement), Increment, BackFirst(n, m));
  }

  /** A reader has pinned epoch 1 and holds record 0, which a writer then registered at epoch 0. */
  function Registered(n: nat, m: nat): State
    requires n > 1 && m > 0
  {
    BackFirst(n, m).(
      tokens := Tokens.State(Ring(0, 1, Zeros(n)[1 := 1]), map[0 := 1], multiset{1}, multiset{}),
      held := map[0 := {Record(0)}], created := {Record(0)},
      writers := map[0 := Queued], queues := NoActions(m)[0 := [Bucket(0, [Record(0)])]])
  }

  lemma ReachRegistered(n: nat, m: nat)
    requires n > 1 && m > 0
    ensures Reachable(false, n, m, Registered(n, m))
  {
    ReachBackFirst(n, m);
    hide Reachable, Insert;
    var s, r, t := BackFirst(n, m), Record(0), Registered(n, m);
    var linked := s.(linked := {r}, created := {r});
    assert s.linked + {r} == {r} && s.created + {r} == {r};
    ReachNext(n, m, s, Store(0, None, Some(r)), linked);
    var pinned := linked.(tokens := t.tokens);
    PinOfEpochOne(n, m);
    ReachNext(n, m, linked, Construct(0), pinned);
    var loaded := pinned.(held := t.held);
    assert pinned.held[0 := {} + {r}] == t.held;
    ReachNext(n, m, pinned, Load(0, r), loaded);
    var unlinked := loaded.(linked := {}, writers := map[0 := Unlinked(r)]);
    assert loaded.linked - {r} == {} && loaded.writers[0 := Unlinked(r)] == unlinked.writers;
    ReachNext(n, m, loaded, Store(0, Some(r), None), unlinked);
    var stamped := unlinked.(writers := map[0 := Stamped(r, 0)]);
    assert unlinked.writers[0 := Stamped(r, 0)] == stamped.writers;
    ReachNext(n, m, unlinked, Stamp(0), stamped);
    OnlyAction(r);
    assert stamped.queues[0 := [Bucket(0, [r])]] == t.queues && stamped.queues[0] == [];
    assert stamped.writers[0 := Queued] == t.writers && t.linked == stamped.linked;
    ReachNext(n, m, stamped, Enqueue(0, 0), t);
  }

  lemma PinOfEpochOne(n: nat, m: nat)
    requires n > 1 && m > 0
    ensures Tokens.Step(At(0, 1, Zeros(n)), Tokens.Construct(0)) == Tokens.Next(Registered(n, m).tokens)
  {
    var t := At(0, 1, Zeros(n));
    assert t.ring.Slot(1) == 1;
    assert t.ring.AddRef().counts == Zeros(n)[1 := 1];
  }

  lemma OnlyAction(r: Record)
    ensures Insert([], 0, r) == [Bucket(0, [r])]
    ensures Taken([Bucket(0, [r])], 1) == [r] && Left([Bucket(0, [r])], 1) == []
  {
    var q := [Bucket(0, [r])];
    assert q[1..] == [] && LowerBound(q, 1) == 1 && q[..1] == q;
    FlattenOne(q[0]);
  }

  /** The front has left epoch 0, and the sweep is about to take what is registered there. */
  function BelowTheBound(n: nat, m: nat): State
    requires n > 1 && m > 0
  {
    Registered(n, m).(
      current := 1, phase := Sweeping(1, 0),
      tokens := Tokens.State(Ring(1, 1, Zeros(n)[1 := 1]), map[0 := 1], multiset{1}, multiset{}))
  }

  lemma ReachBelowTheBound(n: nat, m: nat)
    requires n > 1 && m > 0
    ensures Reachable(false, n, m, BelowTheBound(n, m))
  {
    ReachRegistered(n, m);
    hide Reachable;
    var s, t := Registered(n, m), BelowTheBound(n, m);
    var counted := s.(current := 1, phase := Advancing);
    ReachNext(n, m, s, Increment, counted);
    assert counted.tokens.ring.Slot(0) == 0;
    ReachNext(n, m, counted, Probe, counted.(phase := Passing));
    var passed := t.(phase := Advancing);
    ReachNext(n, m, counted.(phase := Passing), IncrementFront, passed);
    ReachNext(n, m, passed, Probe, t);
  }

  /** The sweeps take the record off, although its reader still holds it. */
  function Taking(n: nat, m: nat): State
    requires n > 1 && m > 0
  {
    BelowTheBound(n, m).(batch := [Record(0)], queues := NoActions(m), phase := Applying(1))
  }

  lemma ReachTaking(n: nat, m: nat)
    requires n > 1 && m > 0
    ensures Reachable(false, n, m, Taking(n, m))
  {
    ReachBelowTheBound(n, m);
    hide Reachable, Taken, Left, Insert;
    var s, r := BelowTheBound(n, m), Record(0);
    OnlyAction(r);
    var taken := s.(batch := [r], queues := NoActions(m), phase := Sweeping(1, 1));
    assert s.queues[0 := []] == NoActions(m) && s.batch + [r] == [r];
    ReachNext(n, m, s, SweepQueue, taken);
    ReachSwept(n, m, taken, 1, 1);
  }

  /** With the back first the counter catches up too late: the next pass frees the record under its
      reader, in every ring of more than one slot. */
  lemma BackFirstIsUnsafe(queueSize: nat, queues: nat)
    requires queueSize > 1 && queues > 0
    ensures exists s :: Reachable(false, queueSize, queues, s) && !Safe(s)
  {
    var n, m, r := queueSize, queues, Record(0);
    ReachTaking(n, m);
    hide Reachable;
    var s := Taking(n, m);
    var freed := s.(batch := [], freed := [r]);
    assert s.batch[1..] == [] && s.freed + [r] == [r];
    ReachNext(n, m, s, RunAction, freed);
    assert 0 in freed.held && r in freed.held[0] && r in freed.freed;
  }

  lemma StepWithoutQueues(counterFirst: bool, s: State, l: Label)
    requires s.tokens.ring.Sized() && s.queues == [] && s.batch == [] && s.freed == [] && Step(counterFirst, s, l).Some?
    ensures var t := Step(counterFirst, s, l).value;
      t.queues == [] && t.batch == [] && t.freed == []
  {
    hide Tokens.Step;
  }

  /** Without a queue nothing can be registered, and nothing is released. */
  lemma {:induction false} NothingReleased(counterFirst: bool, s: State, labels: seq<Label>)
    requires s.tokens.ring.Sized() && s.queues == [] && s.batch == [] && s.freed == []
    requires Run(counterFirst, s, labels).Some?
    ensures Safe(Run(counterFirst, s, labels).value)
    decreases |labels|
  {
    if labels != [] {
      StepWithoutQueues(counterFirst, s, labels[0]);
      hide Step;
      NothingReleased(counterFirst, Step(counterFirst, s, labels[0]).value, labels[1..]);
    }
  }

  /** The comment in EpochManager::Add, exactly: every reachable state is safe if and only if the
      counter is incremented before the back, or there is a single slot, which any reference keeps
      in use, or no queue. */
  lemma CounterFirstIsNeeded(counterFirst: bool, queueSize: nat, queues: nat)
    requires queueSize > 0
    ensures (forall s :: Reachable(counterFirst, queueSize, queues, s) ==> Safe(s))
      <==> (counterFirst || queueSize == 1 || queues == 0)
  {
    hide Run, Safe;
    if counterFirst || queueSize == 1 || queues == 0 {
      forall s | Reachable(counterFirst, queueSize, queues, s) ensures Safe(s) {
        var labels :| Run(counterFirst, Initial(queueSize, queues), labels) == Some(s);
        if queues == 0 {
          NothingReleased(counterFirst, Initial(queueSize, queues), labels);
        } else {
          RunIsSafe(counterFirst, queueSize, queues, labels);
        }
      }
    } else {
      BackFirstIsUnsafe(queueSize, queues);
    }
  }
}
