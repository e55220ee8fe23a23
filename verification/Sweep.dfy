/**
 The latency thread over many rings: its sweep loop interleaved, step by step, with one producer a ring.
 */
module Sweep {
  import opened Bytes
  import opened FixDetails
  import opened SpscRing
  import Latency

  const MAX_POLLS := 20

  /** Where the latency thread is in its sweep of one ring. */
  datatype Phase = Polling | LoadingTail | Polled | Copying | Releasing

  /** A record as it was handed to calculate_latency, with the ring it came from. */
  datatype Entry = Entry(ring: nat, record: Text)

  /**
   The rings, the ring being swept, its poll limit, and what the thread has done: the records handed to
   calculate_latency in order, how many of them in this visit of the ring, and the matching state.
   */
  datatype System = System(
    rings: seq<Ring>, current: nat, pollLimit: int, phase: Phase,
    handled: seq<Entry>, visit: nat, table: Latency.Table, log: seq<int>)

  datatype Move = Produce(ring: nat, action: Action) | Consume

  predicate IsProducers(a: Action) {
    a.Claim? || a.LoadHead? || a.WriteLength? || a.WriteByte? || a.Publish?
  }

  /** A record's bytes as the summary they are cast to; shorter records are no summaries of the probe's. */
  function MessageOf(record: Text): Summary {
    if |record| >= SUMMARY_HEADER_LEN then Deserialize(record) else Summary(0, 0, 0, [])
  }

  ghost predicate Shaped(s: System) {
    s.current < |s.rings| && forall i :: 0 <= i < |s.rings| ==> |s.rings[i].buf| == s.rings[i].cap > 0
  }

  function WithRing(s: System, a: Action): System
    requires s.current < |s.rings| && |s.rings[s.current].buf| == s.rings[s.current].cap > 0
  {
    s.(rings := s.rings[s.current := Step(s.rings[s.current], a)])
  }

  /** On to the next ring, with a fresh poll limit. */
  function NextRing(s: System): System {
    s.(current := if s.current + 1 < |s.rings| then s.current + 1 else 0,
       pollLimit := MAX_POLLS, phase := Polling, visit := 0)
  }

  /** One step of the latency thread. */
  function ConsumeStep(s: System): System
    requires s.current < |s.rings| && |s.rings[s.current].buf| == s.rings[s.current].cap > 0
  {
    var ring := s.rings[s.current];
    match s.phase
    case Polling =>
      var s' := WithRing(s, Poll);
      s'.(phase := if s'.rings[s.current].consumer.NeedTail? then LoadingTail else Polled)
    case LoadingTail =>
      var s' := WithRing(s, LoadTail);
      if s'.rings[s.current].consumer.Resting? then NextRing(s') else s'.(phase := Polled)
    case Polled =>
      if s.pollLimit - 1 > 0 then s.(pollLimit := s.pollLimit - 1, phase := Copying) else NextRing(s)
    case Copying =>
      if !ring.consumer.Reading? then s
      else if !ReadAll(ring.consumer.got) then WithRing(s, Read)
      else
        var record := ring.consumer.got[RECORD_HEADER..];
        var msg := MessageOf(record);
        s.(handled := s.handled + [Entry(s.current, record)], visit := s.visit + 1, phase := Releasing,
           table := Latency.Next(s.table, msg), log := s.log + Latency.Recorded(s.table, msg))
    case Releasing => WithRing(s, Release).(phase := Polling)
  }

  function MoveStep(s: System, m: Move): System
    requires Shaped(s)
  {
    match m
    case Consume => ConsumeStep(s)
    case Produce(i, a) =>
      if i < |s.rings| && IsProducers(a) then s.(rings := s.rings[i := Step(s.rings[i], a)]) else s
  }

  // ----- The invariant

  /** The records handed over from ring i, in order. */
  function From(handled: seq<Entry>, i: nat): seq<Text> {
    if handled == [] then []
    else
      var last := handled[|handled| - 1];
      From(handled[..|handled| - 1], i) + (if last.ring == i then [last.record] else [])
  }

  function Messages(handled: seq<Entry>): seq<Summary> {
    if handled == [] then []
    else Messages(handled[..|handled| - 1]) + [MessageOf(handled[|handled| - 1].record)]
  }

  /** What ring i has given up: the records released, and the one handed over but not yet released. */
  function Given(ring: Ring, releasing: bool): seq<Text> {
    if releasing && |ring.consumed| < |ring.published| then ring.consumed + [ring.published[|ring.consumed|]]
    else ring.consumed
  }

  ghost predicate PhaseFits(s: System)
    requires s.current < |s.rings|
  {
    var ring := s.rings[s.current];
    match s.phase
    case Polling => s.visit + s.pollLimit == MAX_POLLS && !ring.consumer.NeedTail?
    case LoadingTail => s.visit + s.pollLimit == MAX_POLLS && ring.consumer.NeedTail?
    case Polled => s.visit + s.pollLimit == MAX_POLLS && ring.consumer.Reading?
    case Copying => s.visit + s.pollLimit == MAX_POLLS - 1 && ring.consumer.Reading?
    case Releasing => s.visit + s.pollLimit == MAX_POLLS && ring.consumer.Reading? && ReadAll(ring.consumer.got)
  }

  ghost predicate SysInv(s: System) {
    && s.current < |s.rings|
    && s.pollLimit >= 1
    && (forall i :: 0 <= i < |s.rings| ==> Inv(s.rings[i]))
    && (forall i :: 0 <= i < |s.rings| && i != s.current ==> !s.rings[i].consumer.NeedTail?)
    && PhaseFits(s)
    && (forall i :: 0 <= i < |s.rings| ==>
          From(s.handled, i) == Given(s.rings[i], i == s.current && s.phase.Releasing?))
    && (forall j :: 0 <= j < |s.handled| ==> s.handled[j].ring < |s.rings|)
    && Latency.Run(map[], Messages(s.handled)) == Latency.Result(s.table, s.log)
  }

  lemma ProducerFrame(r: Ring, a: Action)
    requires Inv(r) && IsProducers(a)
    ensures var r' := Step(r, a); r'.consumer == r.consumer && r'.consumed == r.consumed && r.published <= r'.published
  {
    hide Region, LengthAt;
  }

  lemma ConsumerFrame(r: Ring, a: Action)
    requires Inv(r) && (a.Poll? || a.LoadTail? || a.Read?)
    ensures var r' := Step(r, a); r'.consumed == r.consumed && r'.published == r.published
  {
  }

  lemma InvFacts(r: Ring)
    requires Inv(r)
    ensures |r.buf| == r.cap > 0 && r.consumed <= r.published
    ensures r.consumer.Reading? ==>
      && |r.consumed| < |r.published| && r.consumer.got <= Encoded(r.published[|r.consumed|])
      && |r.published[|r.consumed|]| <= MAX_CAPACITY
  {
  }

  /** A step of the current ring's consumer that releases nothing and hands nothing over. */
  lemma QuietStep(s: System, a: Action, phase: Phase)
    requires SysInv(s) && !s.phase.Releasing? && !phase.Releasing? && (a.Poll? || a.LoadTail? || a.Read?)
    requires Shaped(s) && PhaseFits(WithRing(s, a).(phase := phase))
    ensures SysInv(WithRing(s, a).(phase := phase))
  {
    hide Inv, Step, PhaseFits, From, Messages;
    StepKeeps(s.rings[s.current], a);
    ConsumerFrame(s.rings[s.current], a);
  }

  /** Leaving a ring: its limit is used up, or its poll found nothing. */
  lemma LeaveRing(s: System)
    requires SysInv(s) && !s.phase.Releasing? && !s.rings[s.current].consumer.NeedTail?
    ensures SysInv(NextRing(s))
  {
    hide Inv, Step, From, Messages;
  }

  lemma ConsumeQuiet(s: System)
    requires SysInv(s) && Shaped(s) && (s.phase.Polling? || s.phase.LoadingTail?)
    ensures SysInv(ConsumeStep(s))
  {
    hide Inv, From, Messages;
    var ring := s.rings[s.current];
    InvFacts(ring);
    if s.phase.Polling? {
      var r' := Step(ring, Poll);
      QuietStep(s, Poll, if r'.consumer.NeedTail? then LoadingTail else Polled);
    } else {
      var r' := Step(ring, LoadTail);
      if r'.consumer.Resting? {
        QuietStep(s.(phase := LoadingTail), LoadTail, Polling);
        LeaveRing(WithRing(s, LoadTail).(phase := Polling));
      } else {
        QuietStep(s, LoadTail, Polled);
      }
    }
  }

  lemma FromSnoc(handled: seq<Entry>, e: Entry, i: nat)
    ensures From(handled + [e], i) == From(handled, i) + (if e.ring == i then [e.record] else [])
    ensures Messages(handled + [e]) == Messages(handled) + [MessageOf(e.record)]
  {
    assert (handled + [e])[..|handled|] == handled;
  }

  /** Handing a completely read record to calculate_latency. */
  lemma HandOver(s: System)
    requires SysInv(s) && Shaped(s) && s.phase.Copying? && ReadAll(s.rings[s.current].consumer.got)
    ensures SysInv(ConsumeStep(s))
  {
    hide Inv, From, Messages, Latency.Run, Latency.Next, Latency.Recorded, Encoded, ReadAll;
    var ring := s.rings[s.current];
    InvFacts(ring);
    var next := ring.published[|ring.consumed|];
    NotAllRead(next, ring.consumer.got);
    EncodedParts(next);
    var e := Entry(s.current, ring.consumer.got[RECORD_HEADER..]);
    assert e.record == next;
    forall i | 0 <= i < |s.rings| ensures From(s.handled + [e], i) == Given(s.rings[i], i == s.current) {
      InvFacts(s.rings[i]);
      FromSnoc(s.handled, e, i);
    }
    FromSnoc(s.handled, e, 0);
    Latency.RunSnoc(map[], Messages(s.handled), MessageOf(e.record));
  }

  /** Releasing the record just handed over. */
  lemma LetGo(s: System)
    requires SysInv(s) && Shaped(s) && s.phase.Releasing?
    ensures SysInv(ConsumeStep(s))
  {
    hide Inv, From, Messages, Latency.Run, Encoded, ReadAll, LengthAt;
    var ring := s.rings[s.current];
    InvFacts(ring);
    ReleaseKeeps(ring);
    assert ring.published[..|ring.consumed| + 1] == ring.consumed + [ring.published[|ring.consumed|]];
  }

  /** Any step of the latency thread keeps the invariant. */
  lemma ConsumeKeeps(s: System)
    requires SysInv(s) && Shaped(s)
    ensures SysInv(ConsumeStep(s))
  {
    match s.phase
    case Polling => ConsumeQuiet(s);
    case LoadingTail => ConsumeQuiet(s);
    case Polled =>
      hide Inv, From, Messages;
      if s.pollLimit - 1 <= 0 { LeaveRing(s); }
    case Copying =>
      var ring := s.rings[s.current];
      if !ReadAll(ring.consumer.got) {
        hide Inv, From, Messages, ReadAll;
        InvFacts(ring);
        QuietStep(s, Read, Copying);
      } else {
        HandOver(s);
      }
    case Releasing => LetGo(s);
  }

  /** Any step of a producer keeps the invariant: the latency thread does not notice it. */
  lemma ProduceKeeps(s: System, i: nat, a: Action)
    requires SysInv(s) && Shaped(s) && i < |s.rings| && IsProducers(a)
    ensures SysInv(s.(rings := s.rings[i := Step(s.rings[i], a)]))
  {
    hide Inv, Step, From, Messages, ReadAll;
    InvFacts(s.rings[i]);
    StepKeeps(s.rings[i], a);
    ProducerFrame(s.rings[i], a);
  }

  // ----- Every schedule

  lemma MoveKeepsShape(s: System, m: Move)
    requires Shaped(s)
    ensures Shaped(MoveStep(s, m)) && |MoveStep(s, m).rings| == |s.rings|
  {
    match m
    case Consume => hide Step; forall a: Action { StepBuffer(s.rings[s.current], a); }
    case Produce(i, a) => if i < |s.rings| { StepBuffer(s.rings[i], a); }
  }

  function RunAll(s: System, moves: seq<Move>): System
    requires Shaped(s)
    decreases |moves|
  {
    if moves == [] then s
    else
      MoveKeepsShape(s, moves[0]);
      RunAll(MoveStep(s, moves[0]), moves[1..])
  }

  /** The thread before its first sweep: empty rings, an empty table. */
  ghost predicate Start(s: System) {
    && s.current == 0 < |s.rings| && s.pollLimit == MAX_POLLS && s.phase.Polling?
    && s.handled == [] && s.visit == 0 && s.table == map[] && s.log == []
    && forall i :: 0 <= i < |s.rings| ==>
         && GoodCapacity(s.rings[i].cap) && |s.rings[i].buf| == s.rings[i].cap
         && s.rings[i] == Init(s.rings[i].cap, s.rings[i].buf)
  }

  lemma StartHolds(s: System)
    requires Start(s)
    ensures SysInv(s) && Shaped(s)
  {
    hide Inv;
    forall i | 0 <= i < |s.rings| ensures Inv(s.rings[i]) {
      InitHolds(s.rings[i].cap, s.rings[i].buf);
    }
    assert forall i: nat :: From(s.handled, i) == [];
    Latency.RunNil(map[]);
  }

  lemma {:induction false} AllKeep(s: System, moves: seq<Move>)
    requires SysInv(s) && Shaped(s)
    ensures SysInv(RunAll(s, moves)) && |RunAll(s, moves).rings| == |s.rings|
    decreases |moves|
  {
    if moves != [] {
      MoveKeepsShape(s, moves[0]);
      match moves[0] {
        case Consume => ConsumeKeeps(s);
        case Produce(i, a) => if i < |s.rings| && IsProducers(a) { ProduceKeeps(s, i, a); }
      }
      AllKeep(MoveStep(s, moves[0]), moves[1..]);
    }
  }

  /**
   Under every schedule of the latency thread and the producers: the records handed to
   calculate_latency from each ring are, in order and once each, the first records published there; no
   visit hands over more than nineteen; and the table and the recorded latencies are those of the
   records handed over, in that order.
   */
  lemma EverySchedule(s: System, moves: seq<Move>)
    requires Start(s)
    ensures Shaped(s)
    ensures var e := RunAll(s, moves);
      && |e.rings| == |s.rings|
      && (forall i :: 0 <= i < |e.rings| ==> From(e.handled, i) <= e.rings[i].published)
      && e.visit <= 19
      && Latency.Run(map[], Messages(e.handled)) == Latency.Result(e.table, e.log)
  {
    StartHolds(s);
    AllKeep(s, moves);
    var e := RunAll(s, moves);
    hide Inv, From, Messages;
    forall i | 0 <= i < |e.rings| ensures From(e.handled, i) <= e.rings[i].published {
      InvFacts(e.rings[i]);
    }
  }

  // ----- All messages of all rings

  /** The records handed over from rings 0 to n - 1, ring by ring. */
  function FromAll(handled: seq<Entry>, n: nat): seq<Text> {
    if n == 0 then [] else FromAll(handled, n - 1) + From(handled, n - 1)
  }

  function MessagesOf(records: seq<Text>): seq<Summary> {
    if records == [] then [] else MessagesOf(records[..|records| - 1]) + [MessageOf(records[|records| - 1])]
  }

  /** All that has been published, ring by ring. */
  function Published(rings: seq<Ring>): seq<Text> {
    if rings == [] then [] else Published(rings[..|rings| - 1]) + rings[|rings| - 1].published
  }

  lemma {:induction false} MessagesOfAppend(a: seq<Text>, b: seq<Text>)
    ensures MessagesOf(a + b) == MessagesOf(a) + MessagesOf(b)
  {
    if b == [] {
      assert a + b == a;
    } else {
      assert (a + b)[..|a + b| - 1] == a + b[..|b| - 1];
      MessagesOfAppend(a, b[..|b| - 1]);
    }
  }

  /** The messages of some records, order aside. */
  ghost function Bag(records: seq<Text>): multiset<Summary> {
    multiset(MessagesOf(records))
  }

  /** How often message x is among them. */
  ghost function Count(records: seq<Text>, x: Summary): nat {
    Bag(records)[x]
  }

  lemma CountAppend(a: seq<Text>, b: seq<Text>, x: Summary)
    ensures Count(a + b, x) == Count(a, x) + Count(b, x)
  {
    MessagesOfAppend(a, b);
  }

  lemma CountOne(record: Text, x: Summary)
    ensures Count([record], x) == (if MessageOf(record) == x then 1 else 0) && Count([], x) == 0
  {
    assert [record][..0] == [];
    assert MessagesOf([record]) == [MessageOf(record)];
  }

  lemma FromAllCount(handled: seq<Entry>, n: nat, x: Summary)
    requires n > 0
    ensures Count(FromAll(handled, n), x) == Count(FromAll(handled, n - 1), x) + Count(From(handled, n - 1), x)
  {
    CountAppend(FromAll(handled, n - 1), From(handled, n - 1), x);
  }

  lemma {:induction false} FromAllSame(handled: seq<Entry>, e: Entry, n: nat)
    requires e.ring >= n
    ensures FromAll(handled + [e], n) == FromAll(handled, n)
    decreases n
  {
    if n > 0 {
      FromAllSame(handled, e, n - 1);
      FromSnoc(handled, e, n - 1);
    }
  }

  lemma {:induction false} FromAllSnoc(handled: seq<Entry>, e: Entry, n: nat, x: Summary)
    requires e.ring < n
    ensures Count(FromAll(handled + [e], n), x) == Count(FromAll(handled, n), x) + Count([e.record], x)
    decreases n
  {
    hide *;
    FromAllCount(handled + [e], n, x);
    FromAllCount(handled, n, x);
    FromSnoc(handled, e, n - 1);
    if e.ring == n - 1 {
      FromAllSame(handled, e, n - 1);
      CountAppend(From(handled, n - 1), [e.record], x);
    } else {
      FromAllSnoc(handled, e, n - 1, x);
      assert From(handled, n - 1) + [] == From(handled, n - 1);
    }
  }

  /** What was handed over is, order aside, what came from the rings one by one. */
  lemma {:induction false} HandedCount(handled: seq<Entry>, n: nat, x: Summary)
    requires forall j :: 0 <= j < |handled| ==> handled[j].ring < n
    ensures multiset(Messages(handled))[x] == Count(FromAll(handled, n), x)
  {
    if handled == [] {
      CountOne([], x);
      FromAllNil(n);
    } else {
      hide Count, MessageOf, From, FromAll;
      var e, rest := handled[|handled| - 1], handled[..|handled| - 1];
      assert handled == rest + [e];
      HandedCount(rest, n, x);
      FromAllSnoc(rest, e, n, x);
      FromSnoc(rest, e, n);
      CountOne(e.record, x);
    }
  }

  lemma HandedByRing(handled: seq<Entry>, n: nat)
    requires forall j :: 0 <= j < |handled| ==> handled[j].ring < n
    ensures multiset(Messages(handled)) == Bag(FromAll(handled, n))
  {
    forall x: Summary ensures multiset(Messages(handled))[x] == Bag(FromAll(handled, n))[x] {
      HandedCount(handled, n, x);
    }
  }

  lemma {:induction false} FromAllNil(n: nat)
    ensures FromAll([], n) == []
  {
    if n > 0 { FromAllNil(n - 1); }
  }

  lemma {:induction false} FromAllPublished(handled: seq<Entry>, rings: seq<Ring>, n: nat)
    requires n <= |rings| && forall i :: 0 <= i < |rings| ==> From(handled, i) == rings[i].published
    ensures FromAll(handled, n) == Published(rings[..n])
  {
    if n > 0 {
      FromAllPublished(handled, rings, n - 1);
      assert rings[..n][..n - 1] == rings[..n - 1];
    }
  }

  /** The thread has caught up with every ring. */
  ghost predicate CaughtUp(s: System) {
    forall i :: 0 <= i < |s.rings| ==> From(s.handled, i) == s.rings[i].published
  }

  /**
   Once the thread has caught up, if what the rings carried is one request and one matching response a
   key, it has recorded exactly the pair latencies and its table is empty.
   */
  lemma CaughtUpLatencies(s: System, moves: seq<Move>, msgs: seq<Summary>)
    requires Start(s) && Shaped(s) && CaughtUp(RunAll(s, moves))
    requires Latency.Paired(msgs) && Bag(Published(RunAll(s, moves).rings)) == multiset(msgs)
    ensures var e := RunAll(s, moves);
      e.table == map[] && multiset(e.log) == multiset(Latency.PairLatencies(msgs))
  {
    hide Latency.Paired, Messages, Bag, Published, From, Inv;
    StartHolds(s);
    AllKeep(s, moves);
    var e := RunAll(s, moves);
    EverySchedule(s, moves);
    HandedByRing(e.handled, |e.rings|);
    FromAllPublished(e.handled, e.rings, |e.rings|);
    assert e.rings[..|e.rings|] == e.rings;
    Latency.OrderIndependence(msgs, Messages(e.handled));
  }
}
