/** What the two evictions of HashTable/Cache/HashTable.h do to the buckets they visit, on values:
    one visit, and the CLOCK sweep as a sequence of visits. */
module ClockSweep {
  import opened Wrappers
  import opened BucketChain
  import opened CacheMetadata
  import opened Accounting
  import opened RecordCodec
  import Bits

  /** How a visit decides: by time only, or by time and access bit, which it then clears. */
  datatype Rule = Rule(clock: bool, now: nat, timeToLive: int)

  predicate Evicted(r: Record, rule: Rule) {
    |r.value| < META_SIZE || IsExpired(r.value, rule.now, rule.timeToLive) || (rule.clock && !IsAccessed(r.value))
  }

  /** A record that stays, after the visit. */
  function Kept(r: Record, rule: Rule): Record
    requires !Evicted(r, rule)
  {
    if rule.clock then Record(r.key, WithAccess(r.value, false)) else r
  }

  function SlotAfter(d: Option<Record>, rule: Rule): Option<Record> {
    if d.None? || Evicted(d.value, rule) then None else Some(Kept(d.value, rule))
  }

  function TagAfter(d: Option<Record>, tag: byte, rule: Rule): byte {
    if d.Some? && Evicted(d.value, rule) then 0 else tag
  }

  /** An entry whose first n slots have been visited. */
  function VisitedEntry(x: Entry, n: nat, rule: Rule): (y: Entry)
    requires x.Ok() && n <= SLOTS
    ensures y.Ok()
  {
    Entry(seq(SLOTS, i requires 0 <= i < SLOTS => if i < n then TagAfter(x.data[i], x.tags[i], rule) else x.tags[i]),
          seq(SLOTS, i requires 0 <= i < SLOTS => if i < n then SlotAfter(x.data[i], rule) else x.data[i]))
  }

  /** A chain visited up to slot i of entry e, that slot excluded. */
  function VisitedUpTo(c: Chain, e: nat, i: nat, rule: Rule): (d: Chain)
    requires ChainOk(c) && i <= SLOTS
    ensures ChainOk(d) && |d| == |c|
  {
    seq(|c|, k requires 0 <= k < |c| => VisitedEntry(c[k], if k < e then SLOTS else if k == e then i else 0, rule))
  }

  function Visited(c: Chain, rule: Rule): (d: Chain)
    requires ChainOk(c)
    ensures ChainOk(d) && |d| == |c|
  {
    VisitedUpTo(c, |c|, 0, rule)
  }

  lemma UnvisitedEntry(x: Entry, rule: Rule)
    requires x.Ok()
    ensures VisitedEntry(x, 0, rule) == x
  {
  }

  lemma VisitStarts(c: Chain, rule: Rule)
    requires ChainOk(c)
    ensures VisitedUpTo(c, 0, 0, rule) == c
  {
    forall k | 0 <= k < |c| ensures VisitedUpTo(c, 0, 0, rule)[k] == c[k] {
      UnvisitedEntry(c[k], rule);
    }
  }

  lemma VisitNextEntry(c: Chain, e: nat, rule: Rule)
    requires ChainOk(c)
    ensures VisitedUpTo(c, e, SLOTS, rule) == VisitedUpTo(c, e + 1, 0, rule)
  {
  }

  lemma VisitSlot(c: Chain, e: nat, i: nat, rule: Rule)
    requires ChainOk(c) && e < |c| && i < SLOTS
    ensures var before := VisitedUpTo(c, e, i, rule);
      && InChain(before, Pos(e, i)) && InChain(c, Pos(e, i))
      && DataAt(before, Pos(e, i)) == DataAt(c, Pos(e, i)) && TagAt(before, Pos(e, i)) == TagAt(c, Pos(e, i))
      && VisitedUpTo(c, e, i + 1, rule) == SetSlot(before, Pos(e, i), SlotAfter(DataAt(c, Pos(e, i)), rule),
                                                   TagAfter(DataAt(c, Pos(e, i)), TagAt(c, Pos(e, i)), rule))
  {
    var x := c[e];
    hide SlotAfter, TagAfter;
    assert VisitedEntry(x, i + 1, rule).data == VisitedEntry(x, i, rule).data[i := SlotAfter(x.data[i], rule)];
    var tag := TagAfter(x.data[i], x.tags[i], rule);
    assert VisitedEntry(x, i + 1, rule).tags == VisitedEntry(x, i, rule).tags[i := tag];
  }

  lemma VisitedAt(c: Chain, rule: Rule, p: Pos)
    requires ChainOk(c)
    ensures InChain(Visited(c, rule), p) <==> InChain(c, p)
    ensures InChain(c, p) ==> DataAt(Visited(c, rule), p) == SlotAfter(DataAt(c, p), rule)
  {
  }

  // ----- the CLOCK sweep -----

  ghost predicate WellShaped(t: Table) {
    |t| > 0 && forall b :: 0 <= b < |t| ==> ChainOk(t[b])
  }

  /** The table after k visits, of the buckets from the hand on. */
  ghost function Swept(t: Table, hand: nat, k: nat, rule: Rule): (u: Table)
    requires WellShaped(t)
    ensures WellShaped(u) && |u| == |t|
  {
    if k == 0 then t
    else
      var u := Swept(t, hand, k - 1, rule);
      var b := (hand + k - 1) % |t|;
      u[b := Visited(u[b], rule)]
  }

  lemma SweptNext(t: Table, hand: nat, k: nat, rule: Rule)
    requires WellShaped(t)
    ensures Swept(t, hand, 0, rule) == t
    ensures var u, b := Swept(t, hand, k, rule), (hand + k) % |t|;
      Swept(t, hand, k + 1, rule) == u[b := Visited(u[b], rule)]
  {
  }

  /** How often bucket b is among k buckets from the hand on. */
  function Visits(hand: nat, k: nat, n: nat, b: nat): nat
    requires n > 0
  {
    if k == 0 then 0 else Visits(hand, k - 1, n, b) + if (hand + k - 1) % n == b then 1 else 0
  }

  function SlotAfterVisits(d: Option<Record>, m: nat, rule: Rule): Option<Record> {
    if m == 0 then d else SlotAfter(SlotAfterVisits(d, m - 1, rule), rule)
  }

  /** The sweep acts on each slot by itself, as often as its bucket is visited. */
  lemma {:induction false} SweptAt(t: Table, hand: nat, k: nat, rule: Rule, b: nat, p: Pos)
    requires WellShaped(t) && b < |t| && InChain(t[b], p)
    ensures InChain(Swept(t, hand, k, rule)[b], p)
    ensures DataAt(Swept(t, hand, k, rule)[b], p) == SlotAfterVisits(DataAt(t[b], p), Visits(hand, k, |t|, b), rule)
  {
    if k > 0 {
      SweptAt(t, hand, k - 1, rule, b, p);
      var u := Swept(t, hand, k - 1, rule);
      hide SlotAfter, Visited;
      VisitedAt(u[b], rule, p);
    }
  }

  lemma {:induction false} SweptShape(t: Table, hand: nat, k: nat, rule: Rule, b: nat, p: Pos)
    requires WellShaped(t) && b < |t|
    ensures InChain(Swept(t, hand, k, rule)[b], p) <==> InChain(t[b], p)
  {
    if k > 0 {
      SweptShape(t, hand, k - 1, rule, b, p);
      var u := Swept(t, hand, k - 1, rule);
      VisitedAt(u[b], rule, p);
    }
  }

  // ----- counting visits -----

  /** The number of x below the limit with x % n == b. */
  function Upto(limit: nat, n: nat, b: nat): nat
    requires n > 0
  {
    limit / n + if limit % n > b then 1 else 0
  }

  lemma UptoNext(x: nat, n: nat, b: nat)
    requires b < n
    ensures Upto(x + 1, n, b) == Upto(x, n, b) + if x % n == b then 1 else 0
  {
    var q, r := x / n, x % n;
    if r + 1 < n {
      Quotient(x + 1, n, q, r + 1);
    } else {
      assert x + 1 == n * (q + 1);
      Quotient(x + 1, n, q + 1, 0);
    }
  }

  lemma Quotient(x: nat, n: nat, q: nat, r: nat)
    requires n > 0 && x == n * q + r && r < n
    ensures x / n == q && x % n == r
  {
    Bits.ModUnique(x, n, q, r);
    var d := x / n - q;
    assert n * (x / n) == n * q;
    assert n * d == 0;
    Bits.Multiple(n, d);
  }

  lemma UptoRound(x: nat, n: nat, b: nat)
    requires b < n
    ensures Upto(x + n, n, b) == Upto(x, n, b) + 1
  {
    assert x + n == n * (x / n + 1) + x % n;
    Quotient(x + n, n, x / n + 1, x % n);
  }

  lemma {:induction false} VisitsCounted(hand: nat, k: nat, n: nat, b: nat)
    requires b < n
    ensures Visits(hand, k, n, b) == Upto(hand + k, n, b) - Upto(hand, n, b)
  {
    if k > 0 {
      VisitsCounted(hand, k - 1, n, b);
      UptoNext(hand + k - 1, n, b);
    }
  }

  lemma {:induction false} VisitsMonotone(hand: nat, j: nat, k: nat, n: nat, b: nat)
    requires n > 0 && j <= k
    ensures Visits(hand, j, n, b) <= Visits(hand, k, n, b)
  {
    if j < k {
      VisitsMonotone(hand, j, k - 1, n, b);
    }
  }

  /** Every n consecutive visits meet each of n buckets once, wherever the hand is. */
  lemma VisitsPerRound(hand: nat, k: nat, n: nat, b: nat)
    requires b < n
    ensures Visits(hand, n, n, b) == 1 && Visits(hand, 2 * n, n, b) == 2
    ensures k <= n ==> Visits(hand, k, n, b) <= 1
    ensures k <= 2 * n ==> Visits(hand, k, n, b) <= 2
  {
    hide Upto, Visits;
    VisitsCounted(hand, n, n, b);
    VisitsCounted(hand, 2 * n, n, b);
    UptoRound(hand, n, b);
    UptoRound(hand + n, n, b);
    if k <= n {
      VisitsMonotone(hand, k, n, n, b);
    }
    if k <= 2 * n {
      VisitsMonotone(hand, k, 2 * n, n, b);
    }
  }

  /** In the first round the buckets visited are the k ones from the hand on, modulo their number, and
      in the second one they are visited again in the same order. */
  lemma VisitedBuckets(hand: nat, k: nat, n: nat, b: nat)
    requires b < n && k <= n
    ensures Visits(hand, k, n, b) == if b in seq(k, j => (hand + j) % n) then 1 else 0
    ensures Visits(hand, n + k, n, b) == 1 + Visits(hand, k, n, b)
  {
    hide Upto, Visits;
    VisitsPerRound(hand, k, n, b);
    VisitsCounted(hand, k, n, b);
    VisitsCounted(hand, n + k, n, b);
    UptoRound(hand + k, n, b);
    VisitedIfOneOf(hand, k, n, b);
  }

  lemma {:induction false} VisitedIfOneOf(hand: nat, k: nat, n: nat, b: nat)
    requires n > 0
    ensures Visits(hand, k, n, b) > 0 <==> b in seq(k, j => (hand + j) % n)
  {
    if k > 0 {
      VisitedIfOneOf(hand, k - 1, n, b);
      OneMore(k - 1, j => (hand + j) % n, b);
    }
  }

  lemma OneMore(k: nat, f: int -> int, b: int)
    ensures b in seq(k + 1, f) <==> b in seq(k, f) || b == f(k)
  {
    assert seq(k + 1, f) == seq(k, f) + [f(k)];
  }

  // ----- what the sweep achieves -----

  /** Two visits of CLOCK leave nothing. */
  lemma TwoVisitsEvict(d: Option<Record>, rule: Rule)
    requires rule.clock
    ensures SlotAfterVisits(d, 2, rule) == None
  {
    assert SlotAfterVisits(d, 1, rule) == SlotAfter(d, rule);
    assert SlotAfterVisits(d, 2, rule) == SlotAfter(SlotAfterVisits(d, 1, rule), rule);
    hide SlotAfterVisits, EpochTime, WithAccess, IsAccessed;
    if d.Some? && !Evicted(d.value, rule) {
      UpdateIsIndependent(d.value.value, false);
    }
  }

  lemma {:induction false} VacantStays(m: nat, rule: Rule)
    ensures SlotAfterVisits(None, m, rule) == None
  {
    if m > 0 {
      VacantStays(m - 1, rule);
    }
  }

  ghost predicate NoData(t: Table) {
    forall b, p :: 0 <= b < |t| && InChain(t[b], p) ==> DataAt(t[b], p).None?
  }

  /** A sweep of two rounds leaves no record at all. */
  lemma TwoRoundsEmpty(t: Table, hand: nat, rule: Rule)
    requires WellShaped(t) && rule.clock
    ensures NoData(Swept(t, hand, 2 * |t|, rule))
  {
    var u := Swept(t, hand, 2 * |t|, rule);
    forall b, p | 0 <= b < |u| && InChain(u[b], p) ensures DataAt(u[b], p).None? {
      SweptShape(t, hand, 2 * |t|, rule, b, p);
      SweptAt(t, hand, 2 * |t|, rule, b, p);
      VisitsPerRound(hand, 0, |t|, b);
      TwoVisitsEvict(DataAt(t[b], p), rule);
    }
  }

  /** A record goes at the first visit of its bucket if it is expired or has not been accessed, else
      at the second; until then its key, value and time stay. */
  lemma SecondChance(t: Table, hand: nat, k: nat, rule: Rule, b: nat, p: Pos)
    requires WellShaped(t) && rule.clock && b < |t| && InChain(t[b], p) && DataAt(t[b], p).Some? && k <= 2 * |t|
    requires |DataAt(t[b], p).value.value| >= META_SIZE
    ensures InChain(Swept(t, hand, k, rule)[b], p)
    ensures var r, d := DataAt(t[b], p).value, DataAt(Swept(t, hand, k, rule)[b], p);
      && (d.None? <==>
            || Visits(hand, k, |t|, b) == 2
            || (Visits(hand, k, |t|, b) == 1
                && (IsExpired(r.value, rule.now, rule.timeToLive) || !IsAccessed(r.value))))
      && (d.Some? ==>
            && d.value.key == r.key && |d.value.value| == |r.value|
            && d.value.value[META_SIZE..] == r.value[META_SIZE..]
            && EpochTime(d.value.value) == EpochTime(r.value)
            && (IsAccessed(d.value.value) <==> IsAccessed(r.value) && Visits(hand, k, |t|, b) == 0))
  {
    var r := DataAt(t[b], p).value;
    SweptAt(t, hand, k, rule, b, p);
    VisitsPerRound(hand, k, |t|, b);
    TwoVisitsEvict(Some(r), rule);
    assert SlotAfterVisits(Some(r), 1, rule) == SlotAfter(Some(r), rule);
    UpdateIsIndependent(r.value, false);
    hide Swept, Visits;
  }

  /** A record that is accessed and not expired survives every sweep of at most one round. */
  lemma SurvivesOneRound(t: Table, hand: nat, k: nat, rule: Rule, b: nat, p: Pos)
    requires WellShaped(t) && rule.clock && b < |t| && InChain(t[b], p) && DataAt(t[b], p).Some? && k <= |t|
    requires var v := DataAt(t[b], p).value.value;
      |v| >= META_SIZE && IsAccessed(v) && !IsExpired(v, rule.now, rule.timeToLive)
    ensures InChain(Swept(t, hand, k, rule)[b], p)
    ensures var r, d := DataAt(t[b], p).value, DataAt(Swept(t, hand, k, rule)[b], p);
      d.Some? && d.value.key == r.key && (d.value.value == r.value || d.value.value == WithAccess(r.value, false))
  {
    var r := DataAt(t[b], p).value;
    SweptAt(t, hand, k, rule, b, p);
    VisitsPerRound(hand, k, |t|, b);
    assert SlotAfterVisits(Some(r), 1, rule) == SlotAfter(Some(r), rule);
  }

  // ----- bytes -----

  function DataBytes(t: Table): nat {
    Total(KeyBytes, t) + Total(ValueBytes, t)
  }

  /** No record has 2^32 bytes, so that the 32-bit sum of its sizes is their sum. */
  ghost predicate SmallSlots(data: seq<Option<Record>>) {
    forall i :: 0 <= i < |data| && data[i].Some? ==> |data[i].value.key| + |data[i].value.value| < U32
  }

  ghost predicate SmallChain(c: Chain) {
    forall e :: 0 <= e < |c| ==> SmallSlots(c[e].data)
  }

  ghost predicate SmallRecords(t: Table) {
    forall b :: 0 <= b < |t| ==> SmallChain(t[b])
  }

  lemma {:induction false} SlotBytes(data: seq<Option<Record>>)
    requires SmallSlots(data)
    ensures SlotTotal(CountedBytes, data) == SlotTotal(KeyBytes, data) + SlotTotal(ValueBytes, data)
  {
    if data != [] {
      SlotBytes(data[1..]);
      assert data[0].Some? ==> |data[0].value.key| + |data[0].value.value| < U32;
    }
  }

  lemma {:induction false} ChainBytes(c: Chain)
    requires SmallChain(c)
    ensures ChainTotal(CountedBytes, c) == ChainTotal(KeyBytes, c) + ChainTotal(ValueBytes, c)
  {
    hide SmallSlots, SlotTotal;
    if c != [] {
      SlotBytes(c[0].data);
      ChainBytes(c[1..]);
    }
  }

  lemma {:induction false} CountedIsData(t: Table)
    requires SmallRecords(t)
    ensures Total(CountedBytes, t) == Total(KeyBytes, t) + Total(ValueBytes, t)
  {
    hide SmallChain, ChainTotal;
    if t != [] {
      ChainBytes(t[0]);
      CountedIsData(t[1..]);
    }
  }

  lemma VisitKeepsSmall(c: Chain, rule: Rule)
    requires ChainOk(c) && SmallChain(c)
    ensures SmallChain(Visited(c, rule))
  {
    hide IsExpired, IsAccessed, WithAccess;
    forall e | 0 <= e < |c| ensures SmallSlots(Visited(c, rule)[e].data) {
      assert SmallSlots(c[e].data);
    }
  }

  lemma {:induction false} SweepKeepsSmall(t: Table, hand: nat, k: nat, rule: Rule)
    requires WellShaped(t) && SmallRecords(t)
    ensures SmallRecords(Swept(t, hand, k, rule))
  {
    hide SmallChain, Visited;
    if k > 0 {
      SweepKeepsSmall(t, hand, k - 1, rule);
      VisitKeepsSmall(Swept(t, hand, k - 1, rule)[(hand + k - 1) % |t|], rule);
    }
  }

  /** What is left to free of a number of bytes when some are. */
  function LeftToFree(wanted: nat, freed: int): nat {
    if freed >= wanted then 0 else if freed < 0 then wanted else wanted - freed
  }
}
