/** LocalMemory/EpochManager.h: the owner of the epoch queue, the action queues and the current
    epoch counter, run by one thread at a time; the passes of its processing thread are runs of the
    reclamation machine in which nothing else interleaves. */
module LocalEpochManager {
  import opened Wrappers
  import opened EpochRing
  import opened EpochActions
  import opened Reclamation

  /** The counters of ServerPerfCounter that the epoch manager updates. */
  datatype ServerPerfData = ServerPerfData(pendingActions: int, lastPerformedActions: int, oldestEpoch: nat,
                                           latestEpoch: nat)

  class EpochManager {
    var perfData: ServerPerfData
    var currentEpochCounter: nat
    const epochQueue: EpochQueue
    const actionManager: EpochActionManager<Record>

    ghost predicate Valid()
      reads this, epochQueue, actionManager, actionManager.epochToActionsList
    {
      epochQueue.Valid() && actionManager.Valid()
    }

    ghost function Queues(): seq<Queue<Record>>
      reads actionManager, actionManager.epochToActionsList
    {
      actionManager.epochToActionsList[..]
    }

    constructor (queue: EpochQueue, actions: EpochActionManager<Record>)
      requires queue.Valid() && actions.Valid() && queue.backIndex == 0
      ensures Valid() && epochQueue == queue && actionManager == actions
      ensures currentEpochCounter == 0 && perfData == ServerPerfData(0, 0, 0, 0)
    {
      epochQueue, actionManager := queue, actions;
      currentEpochCounter := 0;
      perfData := ServerPerfData(0, 0, 0, 0);
    }

    method RegisterAction(action: Record)
      requires Valid()
      modifies this`perfData, actionManager`counter, actionManager.epochToActionsList
      ensures Valid()
      ensures var i := QueueIndex(old(actionManager.counter), 1, |Queues()|);
        i < |Queues()| && Queues() == old(Queues())[i := Insert(old(Queues())[i], currentEpochCounter, action)]
      ensures perfData == old(perfData).(pendingActions := old(perfData).pendingActions + 1)
    {
      actionManager.RegisterAction(currentEpochCounter, action);
      perfData := perfData.(pendingActions := perfData.pendingActions + 1);
    }

    /** The counter first, then the queue. */
    method Add()
      requires Valid()
      modifies this`currentEpochCounter, epochQueue`backIndex
      ensures Valid()
      ensures currentEpochCounter == old(currentEpochCounter) + 1
      ensures epochQueue.View() == old(epochQueue.View()).AddNewEpoch()
    {
      currentEpochCounter := currentEpochCounter + 1;
      epochQueue.AddNewEpoch();
    }

    /** The pass of the machine that advances the front and performs what is below it. */
    method Remove()
      requires Valid()
      modifies this`perfData, epochQueue`frontIndex, actionManager`performed, actionManager.epochToActionsList
      ensures Valid()
      ensures var bound := old(epochQueue.View()).RemoveUnreferenced().front;
        var taken := TakenFromAll(old(Queues()), bound);
        && epochQueue.View() == old(epochQueue.View()).RemoveUnreferenced()
        && Queues() == LeftInAll(old(Queues()), bound)
        && actionManager.performed == old(actionManager.performed) + taken
        && perfData == ServerPerfData(old(perfData).pendingActions - |taken|, |taken|, bound, currentEpochCounter)
    {
      var oldest := epochQueue.RemoveUnreferenceEpochCounters();
      var count := actionManager.PerformActions(oldest);
      perfData := perfData.(pendingActions := perfData.pendingActions - count);
      perfData := perfData.(lastPerformedActions := count);
      perfData := perfData.(oldestEpoch := oldest);
      perfData := perfData.(latestEpoch := currentEpochCounter);
    }
  }

  // ----- the pass as a run of the machine -----

  lemma {:induction false} RunCompose(s: State, first: seq<Label>, second: seq<Label>)
    requires s.tokens.ring.Sized() && Run(true, s, first).Some? && Run(true, s, first).value.tokens.ring.Sized()
    ensures Run(true, s, first + second) == Run(true, Run(true, s, first).value, second)
    decreases |first|
  {
    hide Step;
    if first == [] {
      assert first + second == second;
    } else {
      RunCompose(Step(true, s, first[0]).value, first[1..], second);
      assert (first + second)[1..] == first[1..] + second;
    }
  }

  lemma RunSingle(s: State, l: Label)
    requires s.tokens.ring.Sized() && Step(true, s, l).Some? && Step(true, s, l).value.tokens.ring.Sized()
    ensures Run(true, s, [l]) == Step(true, s, l)
  {
    hide Step;
    assert [l][1..] == [];
  }

  lemma RunNothing(s: State)
    requires s.tokens.ring.Sized()
    ensures Run(true, s, []) == Some(s)
  {
  }

  lemma NextAction(s: State)
    requires s.tokens.ring.Sized() && s.phase.Applying? && s.batch != []
    ensures Step(true, s, RunAction) == RunActionStep(s) && RunActionStep(s).Some?
    ensures RunActionStep(s).value == s.(freed := s.freed + [s.batch[0]], batch := s.batch[1..])
  {
  }

  function WithRing(s: State, r: Ring): State {
    s.(tokens := s.tokens.(ring := r))
  }

  lemma {:induction false} LoopIsARun(s: State) returns (labels: seq<Label>)
    requires s.tokens.ring.Sized() && s.phase == Advancing
    ensures var r := s.tokens.ring.RemoveUnreferenced();
      r.Sized() && Run(true, s, labels) == Some(WithRing(s, r).(phase := Sweeping(r.front, 0)))
    ensures forall l :: l in labels ==> Own(l)
    decreases s.tokens.ring.back - s.tokens.ring.front
  {
    if s.tokens.ring.CanAdvance() {
      var passing := s.(phase := Passing);
      var next := WithRing(s, s.tokens.ring.Advance());
      RunSingle(s, Probe);
      RunSingle(passing, IncrementFront);
      assert Step(true, passing, IncrementFront) == Some(next);
      var rest := LoopIsARun(next);
      hide Step, Run;
      RunCompose(passing, [IncrementFront], rest);
      RunCompose(s, [Probe], [IncrementFront] + rest);
      labels := [Probe] + ([IncrementFront] + rest);
    } else {
      RunSingle(s, Probe);
      labels := [Probe];
    }
  }

  /** What the sweeps that are still to come make of a state. */
  function Swept(s: State): State
    requires s.phase.Sweeping? && s.phase.next <= |s.queues|
  {
    var i, bound := s.phase.next, s.phase.bound;
    var batch := s.batch + TakenFromAll(s.queues[i..], bound);
    s.(batch := batch, queues := s.queues[..i] + LeftInAll(s.queues[i..], bound), phase := Applying(|batch|))
  }

  lemma NothingLeftToSweep(s: State)
    requires s.phase.Sweeping? && s.phase.next == |s.queues|
    ensures Swept(s) == s.(phase := Applying(|s.batch|))
  {
    assert s.queues[|s.queues|..] == [];
    assert s.queues[..|s.queues|] + [] == s.queues;
  }

  lemma OneMoreSwept(s: State)
    requires s.phase.Sweeping? && s.phase.next < |s.queues|
    ensures Swept(SweepStep(s).value) == Swept(s)
  {
    hide Taken, Left;
    var i, bound := s.phase.next, s.phase.bound;
    var t := SweepStep(s).value;
    assert s.queues[i..][1..] == s.queues[i + 1..] == t.queues[i + 1..];
    assert t.queues[..i + 1] == s.queues[..i] + [Left(s.queues[i], bound)];
    assert t.batch + TakenFromAll(t.queues[i + 1..], bound) == s.batch + TakenFromAll(s.queues[i..], bound);
    assert t.queues[..i + 1] + LeftInAll(t.queues[i + 1..], bound) == s.queues[..i] + LeftInAll(s.queues[i..], bound);
  }

  lemma {:induction false} SweepsAreARun(s: State) returns (labels: seq<Label>)
    requires s.tokens.ring.Sized() && s.phase.Sweeping? && s.phase.next <= |s.queues|
    ensures Run(true, s, labels) == Some(Swept(s))
    ensures forall l :: l in labels ==> Own(l)
    decreases |s.queues| - s.phase.next
  {
    hide Run, Taken, Left, Swept;
    RunSingle(s, SweepQueue);
    labels := [SweepQueue];
    if s.phase.next == |s.queues| {
      NothingLeftToSweep(s);
    } else {
      OneMoreSwept(s);
      var rest := SweepsAreARun(SweepStep(s).value);
      RunCompose(s, labels, rest);
      labels := labels + rest;
    }
  }

  lemma {:induction false} ActionsAreARun(s: State) returns (labels: seq<Label>)
    requires s.tokens.ring.Sized() && s.phase.Applying?
    ensures Run(true, s, labels) == Some(s.(batch := [], freed := s.freed + s.batch))
    ensures forall l :: l in labels ==> Own(l)
    decreases |s.batch|
  {
    hide Run, Step;
    if s.batch == [] {
      labels := [];
      RunNothing(s);
      assert s.freed + [] == s.freed;
    } else {
      var t := RunActionStep(s).value;
      NextAction(s);
      RunSingle(s, RunAction);
      var rest := ActionsAreARun(t);
      RunCompose(s, [RunAction], rest);
      labels := [RunAction] + rest;
      assert s.batch == [s.batch[0]] + t.batch;
      assert t.freed + t.batch == s.freed + s.batch;
    }
  }

  /** The state after PerformActions and the update of the pending count. */
  function Performed(s: State, bound: nat): State {
    var taken := TakenFromAll(s.queues, bound);
    s.(queues := LeftInAll(s.queues, bound), freed := s.freed + taken,
       pendingCount := s.pendingCount - |taken|, phase := FirstIncrement)
  }

  lemma PerformIsARun(s: State) returns (labels: seq<Label>)
    requires s.tokens.ring.Sized() && s.phase.Sweeping? && s.phase.next == 0 && s.batch == []
    ensures Run(true, s, labels) == Some(Performed(s, s.phase.bound))
    ensures forall l :: l in labels ==> Own(l)
  {
    hide Run, TakenFromAll, LeftInAll;
    var first := SweepsAreARun(s);
    SweptFromTheStart(s);
    hide Swept;
    var s1 := Swept(s);
    var second := ActionsAreARun(s1);
    var s2 := s1.(batch := [], freed := s1.freed + s1.batch);
    RunSingle(s2, FinishActions);
    hide Step;
    RunCompose(s1, second, [FinishActions]);
    RunCompose(s, first, second + [FinishActions]);
    labels := first + (second + [FinishActions]);
  }

  /** What Remove does to the queue, the action queues and the log is what an undisturbed pass of
      the processing thread does in the machine, so the safety of every run covers it, and so does its
      progress. */
  lemma RemoveIsARun(s: State) returns (labels: seq<Label>)
    requires s.tokens.ring.Sized() && s.phase == Advancing && s.batch == []
    ensures var r := s.tokens.ring.RemoveUnreferenced();
      Run(true, s, labels) == Some(Performed(WithRing(s, r), r.front))
    ensures forall l :: l in labels ==> Own(l)
    ensures forall lo: nat, e: nat :: SlotsFree(s.tokens.ring, lo, e) ==> UndisturbedPass(s, labels, lo, e)
  {
    hide Run, Step, TakenFromAll, LeftInAll, Ring.RemoveUnreferenced;
    var first := LoopIsARun(s);
    var r := s.tokens.ring.RemoveUnreferenced();
    var s1 := WithRing(s, r).(phase := Sweeping(r.front, 0));
    var second := PerformIsARun(s1);
    RunCompose(s, first, second);
    labels := first + second;
    hide Performed, UndisturbedPass, SlotsFree;
    forall lo: nat, e: nat | SlotsFree(s.tokens.ring, lo, e) ensures UndisturbedPass(s, labels, lo, e) {
      OwnRunIsUndisturbed(s, labels, lo, e);
    }
  }

  lemma SweptFromTheStart(s: State)
    requires s.phase.Sweeping? && s.phase.next == 0 && s.batch == []
    ensures Swept(s) == s.(
      batch := TakenFromAll(s.queues, s.phase.bound), queues := LeftInAll(s.queues, s.phase.bound),
      phase := Applying(|TakenFromAll(s.queues, s.phase.bound)|))
  {
    assert s.queues[0..] == s.queues;
    assert [] + TakenFromAll(s.queues, s.phase.bound) == TakenFromAll(s.queues, s.phase.bound);
    assert s.queues[..0] + LeftInAll(s.queues, s.phase.bound) == LeftInAll(s.queues, s.phase.bound);
  }
}
