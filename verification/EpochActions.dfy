/** Epoch/EpochActionManager.h and EpochActionManager.cpp: the queues of actions waiting for their
    epoch to leave the epoch queue. */
module EpochActions {
  import opened Wrappers
  import opened Bits

  datatype Bucket<A> = Bucket(epoch: nat, actions: seq<A>)

  /** The std::map from epochs to actions, as its elements in iteration order. */
  type Queue<A> = seq<Bucket<A>>

  ghost predicate Sorted<A>(q: Queue<A>) {
    forall i, j :: 0 <= i < j < |q| ==> q[i].epoch < q[j].epoch
  }

  /** operator[] followed by emplace_back. */
  function Insert<A>(q: Queue<A>, epoch: nat, action: A): Queue<A> {
    if q == [] || epoch < q[0].epoch then [Bucket(epoch, [action])] + q
    else if q[0].epoch == epoch then [Bucket(epoch, q[0].actions + [action])] + q[1..]
    else [q[0]] + Insert(q[1..], epoch, action)
  }

  /** lower_bound: the number of buckets strictly below the bound. */
  function LowerBound<A>(q: Queue<A>, bound: nat): (n: nat)
    ensures n <= |q|
  {
    if q == [] || q[0].epoch >= bound then 0 else 1 + LowerBound(q[1..], bound)
  }

  function Flatten<A>(q: Queue<A>): seq<A> {
    if q == [] then [] else q[0].actions + Flatten(q[1..])
  }

  /** What a sweep takes from one queue and what it leaves. */
  function Taken<A>(q: Queue<A>, bound: nat): seq<A> {
    Flatten(q[..LowerBound(q, bound)])
  }

  function Left<A>(q: Queue<A>, bound: nat): Queue<A> {
    q[LowerBound(q, bound)..]
  }

  function TakenFromAll<A>(qs: seq<Queue<A>>, bound: nat): seq<A> {
    if qs == [] then [] else Taken(qs[0], bound) + TakenFromAll(qs[1..], bound)
  }

  function LeftInAll<A>(qs: seq<Queue<A>>, bound: nat): (r: seq<Queue<A>>)
    ensures |r| == |qs|
  {
    if qs == [] then [] else [Left(qs[0], bound)] + LeftInAll(qs[1..], bound)
  }

  /** All waiting actions, whatever their queue and epoch. */
  function FlattenAll<A>(qs: seq<Queue<A>>): seq<A> {
    if qs == [] then [] else Flatten(qs[0]) + FlattenAll(qs[1..])
  }

  /** Action a waits in the queue at epoch e. */
  ghost predicate Waits<A>(q: Queue<A>, e: nat, a: A) {
    exists i :: 0 <= i < |q| && q[i].epoch == e && a in q[i].actions
  }

  // ----- registration -----

  lemma {:induction false} InsertKeepsSorted<A>(q: Queue<A>, epoch: nat, action: A)
    requires Sorted(q)
    ensures Sorted(Insert(q, epoch, action))
    ensures Insert(q, epoch, action) != []
    ensures Insert(q, epoch, action)[0].epoch == if q == [] || epoch < q[0].epoch then epoch else q[0].epoch
  {
    if q != [] && epoch > q[0].epoch {
      InsertKeepsSorted(q[1..], epoch, action);
      var r := Insert(q[1..], epoch, action);
      assert Insert(q, epoch, action) == [q[0]] + r;
    }
  }

  /** Registration adds exactly one action. */
  lemma {:induction false} InsertAddsOne<A>(q: Queue<A>, epoch: nat, action: A)
    ensures multiset(Flatten(Insert(q, epoch, action))) == multiset(Flatten(q)) + multiset{action}
  {
    var r := Insert(q, epoch, action);
    if q == [] || epoch < q[0].epoch {
      assert r[1..] == q && Flatten(r) == [action] + Flatten(q);
    } else if q[0].epoch == epoch {
      assert r[1..] == q[1..];
      assert Flatten(r) == q[0].actions + [action] + Flatten(q[1..]);
    } else {
      InsertAddsOne(q[1..], epoch, action);
      assert r[1..] == Insert(q[1..], epoch, action);
    }
  }

  lemma {:induction false} InsertWaits<A>(q: Queue<A>, epoch: nat, action: A, e: nat, a: A)
    ensures Waits(Insert(q, epoch, action), e, a) <==> Waits(q, e, a) || (e == epoch && a == action)
  {
    var r := Insert(q, epoch, action);
    if q == [] || epoch < q[0].epoch {
      assert r[0] == Bucket(epoch, [action]) && r[1..] == q;
      WaitsSplit(r, e, a);
    } else if q[0].epoch == epoch {
      assert r[1..] == q[1..];
      WaitsSplit(r, e, a);
      WaitsSplit(q, e, a);
    } else {
      assert r[1..] == Insert(q[1..], epoch, action);
      WaitsSplit(r, e, a);
      WaitsSplit(q, e, a);
      InsertWaits(q[1..], epoch, action, e, a);
    }
  }

  /** What waits in the queue at epoch e, in order. */
  function ActionsAt<A>(q: Queue<A>, e: nat): seq<A> {
    if q == [] then [] else if q[0].epoch == e then q[0].actions else ActionsAt(q[1..], e)
  }

  /** A new action is the last one of its epoch, and the other epochs keep their actions. */
  lemma {:induction false} InsertIsLast<A>(q: Queue<A>, epoch: nat, action: A, e: nat)
    requires Sorted(q)
    ensures ActionsAt(Insert(q, epoch, action), e)
      == if e == epoch then ActionsAt(q, e) + [action] else ActionsAt(q, e)
  {
    if q == [] || epoch < q[0].epoch {
      AbsentBelow(q, epoch);
      assert ([Bucket(epoch, [action])] + q)[1..] == q;
    } else if q[0].epoch == epoch {
      assert ([Bucket(epoch, q[0].actions + [action])] + q[1..])[1..] == q[1..];
    } else {
      assert ([q[0]] + Insert(q[1..], epoch, action))[1..] == Insert(q[1..], epoch, action);
      InsertIsLast(q[1..], epoch, action, e);
    }
  }

  lemma {:induction false} AbsentBelow<A>(q: Queue<A>, e: nat)
    requires forall i :: 0 <= i < |q| ==> e < q[i].epoch
    ensures ActionsAt(q, e) == []
  {
    if q != [] {
      AbsentBelow(q[1..], e);
    }
  }

  lemma WaitsSplit<A>(q: Queue<A>, e: nat, a: A)
    requires q != []
    ensures Waits(q, e, a) <==> (q[0].epoch == e && a in q[0].actions) || Waits(q[1..], e, a)
  {
    if Waits(q[1..], e, a) {
      var i :| 0 <= i < |q[1..]| && q[1..][i].epoch == e && a in q[1..][i].actions;
      assert q[i + 1] == q[1..][i];
    }
    if Waits(q, e, a) && !(q[0].epoch == e && a in q[0].actions) {
      var i :| 0 <= i < |q| && q[i].epoch == e && a in q[i].actions;
      assert q[1..][i - 1] == q[i];
    }
  }

  // ----- the sweep -----

  lemma {:induction false} FlattenAppend<A>(q: Queue<A>, r: Queue<A>)
    ensures Flatten(q + r) == Flatten(q) + Flatten(r)
  {
    if q == [] {
      assert q + r == r;
    } else {
      assert (q + r)[1..] == q[1..] + r;
      FlattenAppend(q[1..], r);
    }
  }

  lemma {:induction false} FlattenContents<A>(q: Queue<A>, a: A)
    ensures a in Flatten(q) <==> exists i :: 0 <= i < |q| && a in q[i].actions
  {
    if q != [] {
      FlattenContents(q[1..], a);
      assert forall i :: 1 <= i < |q| ==> q[i] == q[1..][i - 1];
      assert a in Flatten(q[1..]) ==> exists i :: 1 <= i < |q| && a in q[i].actions by {
        if i :| 0 <= i < |q[1..]| && a in q[1..][i].actions {
          assert a in q[i + 1].actions;
        }
      }
    }
  }

  lemma {:induction false} LowerBoundSplits<A>(q: Queue<A>, bound: nat)
    requires Sorted(q)
    ensures forall i :: 0 <= i < |q| ==> (i < LowerBound(q, bound) <==> q[i].epoch < bound)
  {
    if q != [] && q[0].epoch < bound {
      LowerBoundSplits(q[1..], bound);
      assert forall i :: 1 <= i < |q| ==> q[i] == q[1..][i - 1];
    }
  }

  lemma TakenIsBelow<A>(q: Queue<A>, bound: nat, a: A)
    requires Sorted(q)
    ensures a in Taken(q, bound) <==> exists e: nat :: e < bound && Waits(q, e, a)
  {
    hide Flatten, LowerBound;
    var n := LowerBound(q, bound);
    LowerBoundSplits(q, bound);
    FlattenContents(q[..n], a);
    if i :| 0 <= i < n && a in q[..n][i].actions {
      assert Waits(q, q[i].epoch, a);
    }
    if e: nat :| e < bound && Waits(q, e, a) {
      var i :| 0 <= i < |q| && q[i].epoch == e && a in q[i].actions;
      assert q[..n][i] == q[i];
    }
  }

  lemma LeftIsAbove<A>(q: Queue<A>, bound: nat, e: nat, a: A)
    requires Sorted(q)
    ensures Waits(Left(q, bound), e, a) <==> e >= bound && Waits(q, e, a)
  {
    hide Flatten, LowerBound;
    var n := LowerBound(q, bound);
    LowerBoundSplits(q, bound);
    if e >= bound && Waits(q, e, a) {
      var i :| 0 <= i < |q| && q[i].epoch == e && a in q[i].actions;
      assert Left(q, bound)[i - n] == q[i];
    }
  }

  /** A sweep performs exactly the actions registered strictly below the bound, keeps every other
      one at its epoch, and loses none. */
  lemma SweepIsExact<A>(q: Queue<A>, bound: nat)
    requires Sorted(q)
    ensures Flatten(q) == Taken(q, bound) + Flatten(Left(q, bound))
    ensures Sorted(Left(q, bound))
    ensures forall a :: a in Taken(q, bound) <==> exists e: nat :: e < bound && Waits(q, e, a)
    ensures forall e: nat, a :: Waits(Left(q, bound), e, a) <==> e >= bound && Waits(q, e, a)
  {
    var n := LowerBound(q, bound);
    assert q == q[..n] + q[n..];
    FlattenAppend(q[..n], q[n..]);
    forall a ensures a in Taken(q, bound) <==> exists e: nat :: e < bound && Waits(q, e, a) {
      TakenIsBelow(q, bound, a);
    }
    forall e: nat, a ensures Waits(Left(q, bound), e, a) <==> e >= bound && Waits(q, e, a) {
      LeftIsAbove(q, bound, e, a);
    }
  }

  ghost predicate AllSorted<A>(qs: seq<Queue<A>>) {
    forall i :: 0 <= i < |qs| ==> Sorted(qs[i])
  }

  lemma {:induction false} FlattenAllUpdate<A>(qs: seq<Queue<A>>, i: nat, q: Queue<A>)
    requires i < |qs|
    ensures multiset(FlattenAll(qs[i := q])) + multiset(Flatten(qs[i]))
      == multiset(FlattenAll(qs)) + multiset(Flatten(q))
  {
    hide Flatten;
    var us := qs[i := q];
    assert multiset(FlattenAll(us)) == multiset(Flatten(us[0])) + multiset(FlattenAll(us[1..]));
    assert multiset(FlattenAll(qs)) == multiset(Flatten(qs[0])) + multiset(FlattenAll(qs[1..]));
    if i == 0 {
      assert us[1..] == qs[1..];
    } else {
      assert us[1..] == qs[1..][i - 1 := q];
      assert qs[1..][i - 1] == qs[i] && us[0] == qs[0];
      FlattenAllUpdate(qs[1..], i - 1, q);
      AddBoth(multiset(Flatten(qs[0])), multiset(FlattenAll(us[1..])), multiset(Flatten(qs[i])),
              multiset(FlattenAll(qs[1..])), multiset(Flatten(q)));
    }
  }

  lemma AddBoth<A>(a: multiset<A>, b: multiset<A>, c: multiset<A>, d: multiset<A>, e: multiset<A>)
    requires b + c == d + e
    ensures (a + b) + c == (a + d) + e
  {
    assert (a + b) + c == a + (b + c) && (a + d) + e == a + (d + e);
  }

  lemma CancelCommon<A>(after: multiset<A>, before: multiset<A>, common: multiset<A>, added: multiset<A>)
    requires after + common == before + (common + added)
    ensures after == before + added
  {
    forall a ensures after[a] == (before + added)[a] {
      assert (after + common)[a] == (before + (common + added))[a];
    }
  }

  lemma InsertIntoOne<A>(qs: seq<Queue<A>>, i: nat, epoch: nat, action: A)
    requires i < |qs| && AllSorted(qs)
    ensures var after := qs[i := Insert(qs[i], epoch, action)];
      && AllSorted(after)
      && multiset(FlattenAll(after)) == multiset(FlattenAll(qs)) + multiset{action}
      && |FlattenAll(after)| == |FlattenAll(qs)| + 1
  {
    var q := Insert(qs[i], epoch, action);
    InsertKeepsSorted(qs[i], epoch, action);
    InsertAddsOne(qs[i], epoch, action);
    FlattenAllUpdate(qs, i, q);
    hide FlattenAll, Flatten, Insert, Sorted;
    CancelCommon(multiset(FlattenAll(qs[i := q])), multiset(FlattenAll(qs)), multiset(Flatten(qs[i])),
                 multiset{action});
    assert |multiset(FlattenAll(qs[i := q]))| == |multiset(FlattenAll(qs))| + 1;
  }

  lemma SweepOfOne<A>(qs: seq<Queue<A>>, i: nat, bound: nat)
    requires i < |qs| && AllSorted(qs)
    ensures var after := qs[i := Left(qs[i], bound)];
      && AllSorted(after)
      && multiset(FlattenAll(qs)) == multiset(FlattenAll(after)) + multiset(Taken(qs[i], bound))
      && |FlattenAll(qs)| == |FlattenAll(after)| + |Taken(qs[i], bound)|
  {
    var q, taken := Left(qs[i], bound), multiset(Taken(qs[i], bound));
    SweepIsExact(qs[i], bound);
    FlattenAllUpdate(qs, i, q);
    hide FlattenAll, Flatten, Taken, Left, Sorted;
    CancelCommon(multiset(FlattenAll(qs)), multiset(FlattenAll(qs[i := q])), multiset(Flatten(q)), taken);
    assert |multiset(FlattenAll(qs))| == |multiset(FlattenAll(qs[i := q]))| + |taken|;
  }

  /** One sweep over all the queues performs and keeps, between them, every action that waited. */
  lemma {:induction false} SweepConserves<A>(qs: seq<Queue<A>>, bound: nat)
    requires AllSorted(qs)
    ensures multiset(FlattenAll(qs)) == multiset(TakenFromAll(qs, bound)) + multiset(FlattenAll(LeftInAll(qs, bound)))
    ensures AllSorted(LeftInAll(qs, bound))
  {
    if qs != [] {
      SweepIsExact(qs[0], bound);
      SweepConserves(qs[1..], bound);
      assert LeftInAll(qs, bound)[1..] == LeftInAll(qs[1..], bound);
    }
  }

  lemma {:induction false} TakenFromAllAppend<A>(qs: seq<Queue<A>>, q: Queue<A>, bound: nat)
    ensures TakenFromAll(qs + [q], bound) == TakenFromAll(qs, bound) + Taken(q, bound)
    ensures LeftInAll(qs + [q], bound) == LeftInAll(qs, bound) + [Left(q, bound)]
  {
    hide Flatten, LowerBound, Taken, Left;
    if qs == [] {
      assert qs + [q] == [q];
      assert [q][1..] == [];
    } else {
      assert (qs + [q])[1..] == qs[1..] + [q];
      TakenFromAllAppend(qs[1..], q, bound);
    }
  }

  lemma {:induction false} WaitingIsListed<A>(qs: seq<Queue<A>>, i: nat, e: nat, a: A)
    requires i < |qs| && Waits(qs[i], e, a)
    ensures a in FlattenAll(qs)
  {
    if i == 0 {
      FlattenContents(qs[0], a);
    } else {
      WaitingIsListed(qs[1..], i - 1, e, a);
    }
  }

  // ----- round robin -----

  /** The queue that the n-th registration after a counter value uses; the counter is a 32-bit
      word and wraps. */
  function QueueIndex(counter: nat, n: nat, queues: nat): nat
    requires queues > 0
  {
    BitAnd((counter + n) % WORD, queues - 1)
  }

  lemma {:induction false} Pow2Divides(k: nat, m: nat) returns (q: nat)
    requires k <= m
    ensures Pow2(m) == Pow2(k) * q
  {
    if k == m {
      q := 1;
    } else {
      q := Pow2Divides(k, m - 1);
      q := 2 * q;
    }
  }

  /** The wrap of the counter does not disturb the index, because the number of queues divides
      the number of counter values. */
  lemma IndexIsRemainder(counter: nat, n: nat, k: nat)
    requires k <= 32
    ensures QueueIndex(counter, n, Pow2(k)) == (counter + n) % Pow2(k)
  {
    hide BitAnd, Pow2;
    var x, m := counter + n, Pow2(k);
    AndMaskIsMod(x % WORD, k);
    var q := Pow2Divides(k, 32);
    Pow2Of32();
    NestedMod(x, m, q);
  }

  lemma NestedMod(x: nat, m: nat, q: nat)
    requires m > 0 && m * q > 0
    ensures (x % (m * q)) % m == x % m
  {
    var w := m * q;
    var y := x % w;
    assert x == m * (q * (x / w) + y / m) + y % m by {
      assert w * (x / w) == m * (q * (x / w));
    }
    ModUnique(x, m, q * (x / w) + y / m, y % m);
  }

  /** In the window that starts at a counter value only the n-th registration uses the queue. */
  ghost predicate UsedOnlyBy(counter: nat, n: nat, queues: nat, queue: nat)
    requires queues > 0
  {
    && n < queues && QueueIndex(counter, n, queues) == queue
    && forall other: nat :: other < queues && QueueIndex(counter, other, queues) == queue ==> other == n
  }

  /** Any window of consecutive registrations as long as the number of queues uses every queue
      exactly once, even across the wrap of the counter. */
  lemma EveryQueueOncePerWindow(counter: nat, k: nat, queue: nat)
    requires k <= 32 && queue < Pow2(k)
    ensures exists n: nat :: UsedOnlyBy(counter, n, Pow2(k), queue)
  {
    hide BitAnd, Pow2, QueueIndex;
    var m := Pow2(k);
    var n := NextMultiple(counter, m, queue);
    IndexIsRemainder(counter, n, k);
    forall other: nat | other < m && QueueIndex(counter, other, m) == queue ensures other == n {
      IndexIsRemainder(counter, other, k);
      SameRemainder(counter + n, counter + other, m);
    }
    assert UsedOnlyBy(counter, n, m, queue);
  }

  lemma NextMultiple(counter: nat, m: nat, queue: nat) returns (n: nat)
    requires queue < m
    ensures n < m && (counter + n) % m == queue
  {
    var r := counter % m;
    n := if r <= queue then queue - r else queue + m - r;
    var wrap := if r <= queue then 0 else 1;
    assert counter + n == m * (counter / m + wrap) + queue by {
      assert m * (counter / m + wrap) == m * (counter / m) + m * wrap;
    }
    ModUnique(counter + n, m, counter / m + wrap, queue);
  }

  lemma SameRemainder(a: nat, b: nat, m: nat)
    requires m > 0 && a % m == b % m && 0 < a - b + m < 2 * m
    ensures a == b
  {
    var d := a / m - b / m;
    assert a - b == m * d by {
      assert m * d == m * (a / m) - m * (b / m);
    }
    assert d >= 1 ==> m * d >= m;
    assert d <= -1 ==> m * (-d) >= m;
  }

  // ----- the class -----

  /** Actions are values of a type A; running one appends it to the log. */
  class EpochActionManager<A> {
    const epochToActionsList: array<Queue<A>>
    var counter: nat
    ghost var performed: seq<A>

    ghost predicate Valid()
      reads this, epochToActionsList
    {
      && 0 < epochToActionsList.Length < WORD
      && IsPowerOfTwo(epochToActionsList.Length)
      && counter < WORD
      && AllSorted(epochToActionsList[..])
    }

    /** A request for zero queues asks the platform for its number of hardware threads, which the
        parameter stands for. The number of queues is a 16-bit word in the source, so a request
        that rounds up past it, like one of zero, fails the source's assertion. */
    static method Create(numActionQueues: nat, hardwareConcurrency: nat) returns (m: Option<EpochActionManager<A>>)
      requires numActionQueues < 256 && hardwareConcurrency < 0x1_0000
      ensures var requested := if numActionQueues == 0 then hardwareConcurrency else numActionQueues;
        && (m.None? <==> requested == 0 || requested > 0x8000)
        && (m.Some? ==> LeastPowerFrom(requested, m.value.epochToActionsList.Length))
      ensures m.Some? ==> fresh(m.value) && fresh(m.value.epochToActionsList) && m.value.Valid()
      ensures m.Some? ==> m.value.performed == [] && FlattenAll(m.value.epochToActionsList[..]) == []
    {
      hide BitAnd, Pow2, IsPowerOfTwo;
      var requested := if numActionQueues == 0 then hardwareConcurrency else numActionQueues;
      var n := NextHighestPowerOfTwo(requested);
      NarrowedCount(requested, n);
      if n % 0x1_0000 == 0 {
        return None;
      }
      var manager := new EpochActionManager(n % 0x1_0000);
      m := Some(manager);
    }

    constructor (queues: nat)
      requires 0 < queues < WORD && IsPowerOfTwo(queues)
      ensures Valid() && fresh(epochToActionsList) && epochToActionsList.Length == queues
      ensures performed == [] && counter == 0
      ensures FlattenAll(epochToActionsList[..]) == []
    {
      epochToActionsList := new Queue<A>[queues](_ => []);
      counter := 0;
      performed := [];
      new;
      AllEmpty(epochToActionsList[..]);
    }

    /** The counter is incremented before it is used, so registrations start at the second queue. */
    method RegisterAction(epochCounter: nat, action: A)
      requires Valid()
      modifies this`counter, epochToActionsList
      ensures Valid() && counter == (old(counter) + 1) % WORD
      ensures QueueIndex(old(counter), 1, epochToActionsList.Length) < epochToActionsList.Length
      ensures var i := QueueIndex(old(counter), 1, epochToActionsList.Length);
        epochToActionsList[..]
        == old(epochToActionsList[..])[i := Insert(old(epochToActionsList[..])[i], epochCounter, action)]
      ensures QueueIndex(old(counter), 1, epochToActionsList.Length) == counter % epochToActionsList.Length
    {
      counter := (counter + 1) % WORD;
      var index := BitAnd(counter, epochToActionsList.Length - 1);
      MaskedIndexInRange(counter, epochToActionsList.Length);
      InsertKeepsSorted(epochToActionsList[index], epochCounter, action);
      epochToActionsList[index] := Insert(epochToActionsList[index], epochCounter, action);
    }

    /** Performs everything registered below the bound, queue by queue in order of epoch. */
    method PerformActions(epochCounter: nat) returns (count: nat)
      requires Valid()
      modifies this`performed, epochToActionsList
      ensures Valid()
      ensures performed == old(performed) + TakenFromAll(old(epochToActionsList[..]), epochCounter)
      ensures epochToActionsList[..] == LeftInAll(old(epochToActionsList[..]), epochCounter)
      ensures count == |TakenFromAll(old(epochToActionsList[..]), epochCounter)|
    {
      SweepConserves(epochToActionsList[..], epochCounter);
      var actionsToPerform := SweepQueues(epochToActionsList, epochCounter);
      ApplyActions(actionsToPerform);
      count := |actionsToPerform|;
    }

    /** The loop over the queues. */
    static method SweepQueues(queues: array<Queue<A>>, epochCounter: nat) returns (batch: seq<A>)
      modifies queues
      ensures batch == TakenFromAll(old(queues[..]), epochCounter)
      ensures queues[..] == LeftInAll(old(queues[..]), epochCounter)
    {
      hide Flatten, LowerBound, Taken, Left;
      batch := [];
      ghost var before := queues[..];
      var i := 0;
      while i < queues.Length
        invariant 0 <= i <= queues.Length
        invariant queues[i..] == before[i..]
        invariant queues[..i] == LeftInAll(before[..i], epochCounter)
        invariant batch == TakenFromAll(before[..i], epochCounter)
      {
        assert before[..i + 1] == before[..i] + [before[i]];
        TakenFromAllAppend(before[..i], before[i], epochCounter);
        assert queues[i] == queues[i..][0] == before[i];
        var taken, left := SweepQueue(queues[i], epochCounter);
        batch := batch + taken;
        queues[i] := left;
        assert queues[..i + 1] == queues[..i] + [left];
        i := i + 1;
      }
      assert before[..i] == before && queues[..i] == queues[..];
    }

    /** The body of the loop over one queue: moves the buckets up to lower_bound out and erases them. */
    static method SweepQueue(queue: Queue<A>, epochCounter: nat) returns (batch: seq<A>, rest: Queue<A>)
      ensures batch == Taken(queue, epochCounter) && rest == Left(queue, epochCounter)
    {
      batch, rest := [], queue;
      var end := LowerBound(queue, epochCounter);
      var erased := 0;
      while erased < end
        invariant 0 <= erased <= end && rest == queue[erased..]
        invariant batch == Flatten(queue[..erased])
      {
        assert queue[..erased + 1] == queue[..erased] + [queue[erased]];
        FlattenAppend(queue[..erased], [queue[erased]]);
        FlattenOne(queue[erased]);
        batch := batch + rest[0].actions;
        rest := rest[1..];
        erased := erased + 1;
      }
    }

    method ApplyActions(actions: seq<A>)
      modifies this`performed
      ensures performed == old(performed) + actions
    {
      var i := 0;
      while i < |actions|
        invariant 0 <= i <= |actions|
        invariant performed == old(performed) + actions[..i]
      {
        performed := performed + [actions[i]];
        i := i + 1;
      }
    }
  }

  lemma FlattenOne<A>(b: Bucket<A>)
    ensures Flatten([b]) == b.actions
  {
    assert [b][1..] == [];
  }

  lemma {:induction false} AllEmpty<A>(qs: seq<Queue<A>>)
    requires forall i :: 0 <= i < |qs| ==> qs[i] == []
    ensures FlattenAll(qs) == []
  {
    if qs != [] {
      AllEmpty(qs[1..]);
    }
  }

  lemma MaskedIndexInRange(counter: nat, n: nat)
    requires IsPowerOfTwo(n)
    ensures BitAnd(counter, n - 1) == counter % n
  {
    var k := IsolatedArePowers(n);
    AndMaskIsMod(counter, k);
  }

  lemma SmallPowers()
    ensures Pow2(15) == 0x8000 && Pow2(16) == 0x1_0000
  {
    assert Pow2(8) == 256;
  }

  /** The cast to 16 bits loses only 2^16 itself. */
  lemma NarrowedCount(requested: nat, n: nat)
    requires requested < 0x1_0000
    requires n == 0 <==> requested == 0
    requires n != 0 ==> LeastPowerFrom(requested, n)
    ensures n <= 0x1_0000
    ensures n == 0x1_0000 <==> requested > 0x8000
  {
    hide BitAnd, Pow2, IsPowerOfTwo;
    SmallPowers();
    if requested > 0x8000 {
      var k := IsolatedArePowers(n);
      if k < 16 {
        Pow2Monotone(k, 15);
      } else {
        Pow2Monotone(16, k);
      }
    }
  }
}
