/** The producer against any consumer: a record is published as written, and some schedule carries all records. */
module Producing {
  import opened Bytes
  import opened SpscRing
  import opened SummaryWriter
  import opened Sweep
  import opened SweepProgress
  import Latency

  // ----- One record

  predicate IsConsumers(a: Action) {
    a.Poll? || a.LoadTail? || a.Read? || a.Release?
  }

  /** The producer's steps for one record: claim, length, every byte in order, publish. */
  function Script(record: Text): (s: seq<Action>)
    ensures |s| == |record| + 4
  {
    [Action.Claim(|record|), LoadHead, WriteLength]
    + seq(|record|, i requires 0 <= i < |record| => WriteByte(i, record[i]))
    + [Action.Publish]
  }

  /** The producer's steps from number j on, interleaved with any steps of the consumer. */
  predicate Interleaves(actions: seq<Action>, script: seq<Action>, j: nat)
    requires j <= |script|
    decreases |actions|
  {
    if actions == [] then j == |script|
    else if IsConsumers(actions[0]) then Interleaves(actions[1..], script, j)
    else j < |script| && actions[0] == script[j] && Interleaves(actions[1..], script, j + 1)
  }

  predicate Fits(r: Ring, record: Text) {
    |record| + RECORD_HEADER <= r.cap - (r.tail - r.head)
  }

  /** Where the producer is after j of its steps; unless the record was `sure` to fit it may have been refused. */
  ghost predicate Stage(r: Ring, record: Text, j: nat, sure: bool)
    requires |r.buf| > 0
  {
    var n := |record|;
    && (sure ==> Fits(r, record))
    && if j == 0 then r.producer.Idle?
       else if r.producer.Idle? then !sure
       else if j == 1 then r.producer == NeedHead(n) || r.producer == NeedLength(n)
       else if j == 2 then r.producer == NeedLength(n)
       else r.producer == Filling(n) && j <= n + 3 && Written(r, j - 3) == record[..j - 3]
  }

  /** What a step of the consumer leaves alone: all that the producer works on. */
  lemma ConsumerLeaves(r: Ring, a: Action)
    requires Inv(r) && IsConsumers(a)
    ensures var r' := Step(r, a);
      && r'.buf == r.buf && r'.cap == r.cap && r'.tail == r.tail && r'.producer == r.producer
      && r'.published == r.published && r.head <= r'.head
  {
    hide Region, EncodeAll;
  }

  lemma StageKept(r: Ring, a: Action, record: Text, j: nat, sure: bool)
    requires Inv(r) && IsConsumers(a) && |r.buf| == r.cap > 0 && Stage(r, record, j, sure)
    ensures Stage(Step(r, a), record, j, sure)
  {
    hide Step, Inv, Region;
    ConsumerLeaves(r, a);
  }

  lemma ScriptAt(record: Text, j: nat)
    requires j < |Script(record)|
    ensures Script(record)[j] ==
      if j == 0 then Action.Claim(|record|)
      else if j == 1 then LoadHead
      else if j == 2 then WriteLength
      else if j < |record| + 3 then WriteByte(j - 3, record[j - 3])
      else Action.Publish
  {
  }

  /** The first three steps: the record is claimed, or refused. */
  lemma StageClaim(r: Ring, record: Text, j: nat, sure: bool)
    requires Inv(r) && j < 3 && |r.buf| == r.cap > 0 && Stage(r, record, j, sure)
    ensures var r' := Step(r, Script(record)[j]);
      |r'.buf| > 0 && Stage(r', record, j + 1, sure) && r'.published == r.published
  {
    hide Inv, Region, ToInt32, ToSizeT, ProducerIndex, LE, Script;
    ScriptAt(record, j);
    var a := Script(record)[j];
    StepBuffer(r, a);
    StepKeeps(r, a);
    if j == 0 {
      HonestRefusal(r, |record|);
      HeadBelowTail(r);
    } else if j == 1 {
      if r.producer.NeedHead? { HonestRefusalAtHead(r); }
    } else {
      NothingWritten(Step(r, a));
      assert record[..0] == [];
    }
  }

  lemma HeadBelowTail(r: Ring)
    requires Inv(r)
    ensures r.head <= r.tail
  {
  }

  /** A byte of the record. */
  lemma StageWrite(r: Ring, record: Text, j: nat, sure: bool)
    requires Inv(r) && 3 <= j < |record| + 3 && |r.buf| == r.cap > 0 && Stage(r, record, j, sure)
    ensures var r' := Step(r, Script(record)[j]);
      |r'.buf| > 0 && Stage(r', record, j + 1, sure) && r'.published == r.published
  {
    hide Inv, Region, ProducerIndex, Script, Written;
    ScriptAt(record, j);
    var off := j - 3;
    var a := WriteByte(off, record[off]);
    StepBuffer(r, a);
    if !r.producer.Idle? {
      WriteByteWrites(r, off, record[off]);
      assert record[..off] + [record[off]] == record[..off + 1];
    }
  }

  /** The record is published as it was written. */
  lemma StagePublish(r: Ring, record: Text, sure: bool)
    requires Inv(r) && |r.buf| == r.cap > 0 && Stage(r, record, |record| + 3, sure)
    ensures var r' := Step(r, Action.Publish);
      && r'.producer.Idle?
      && (r'.published == r.published + [record] || (!sure && r'.published == r.published))
  {
    hide Inv, Region, ProducerIndex, Written, LengthAt;
    if !r.producer.Idle? {
      PublishWritten(r);
      assert record[..|record|] == record;
    }
  }

  /** The end of a record's script: only the consumer steps on. */
  lemma {:induction false} OnlyConsumers(r: Ring, actions: seq<Action>, script: seq<Action>)
    requires Inv(r) && |r.buf| == r.cap > 0 && Interleaves(actions, script, |script|)
    ensures Inv(Run(r, actions)) && Run(r, actions).published == r.published
    ensures Run(r, actions).producer == r.producer
    decreases |actions|
  {
    hide Inv, Step;
    if actions != [] {
      ConsumerLeaves(r, actions[0]);
      StepKeeps(r, actions[0]);
      OnlyConsumers(Step(r, actions[0]), actions[1..], script);
    }
  }

  /**
   A record's steps interleaved with any steps of the consumer: the producer is idle again, and the record was
   published byte for byte, or refused; refused only if it did not fit beside what was unreleased at the start.
   */
  lemma {:induction false} StagesPublish(r: Ring, record: Text, actions: seq<Action>, j: nat, sure: bool)
    requires Inv(r) && |r.buf| == r.cap > 0 && j < |Script(record)| && Stage(r, record, j, sure)
    requires Interleaves(actions, Script(record), j)
    ensures var e := Run(r, actions);
      && Inv(e) && e.producer.Idle?
      && (e.published == r.published + [record] || (!sure && e.published == r.published))
    decreases |actions|
  {
    hide Inv, Step, Stage, Script;
    var a, rest := actions[0], actions[1..];
    StepKeeps(r, a);
    StepBuffer(r, a);
    if IsConsumers(a) {
      ConsumerLeaves(r, a);
      StageKept(r, a, record, j, sure);
      StagesPublish(Step(r, a), record, rest, j, sure);
    } else {
      ScriptAt(record, j);
      if j < 3 {
        StageClaim(r, record, j, sure);
        StagesPublish(Step(r, a), record, rest, j + 1, sure);
      } else if j < |record| + 3 {
        StageWrite(r, record, j, sure);
        StagesPublish(Step(r, a), record, rest, j + 1, sure);
      } else {
        StagePublish(r, record, sure);
        OnlyConsumers(Step(r, a), rest, Script(record));
      }
    }
  }

  lemma PublishesAsWritten(r: Ring, record: Text, actions: seq<Action>)
    requires Inv(r) && |r.buf| == r.cap > 0 && r.producer.Idle? && Interleaves(actions, Script(record), 0)
    ensures var e := Run(r, actions);
      && Inv(e) && e.producer.Idle?
      && (e.published == r.published + [record] || (!Fits(r, record) && e.published == r.published))
  {
    hide Inv, Run;
    StagesPublish(r, record, actions, 0, Fits(r, record));
  }

  // ----- A schedule for all records

  /** Steps of the producer of ring i. */
  function Steps(i: nat, actions: seq<Action>): (moves: seq<Move>)
    ensures |moves| == |actions|
  {
    seq(|actions|, k requires 0 <= k < |actions| => Produce(i, actions[k]))
  }

  lemma {:induction false} StepsRun(s: System, i: nat, actions: seq<Action>)
    requires Shaped(s) && i < |s.rings| && forall k :: 0 <= k < |actions| ==> IsProducers(actions[k])
    ensures RunAll(s, Steps(i, actions)) == s.(rings := s.rings[i := Run(s.rings[i], actions)])
    decreases |actions|
  {
    hide Step;
    if actions == [] {
      assert s.rings[i := s.rings[i]] == s.rings;
    } else {
      var t := MoveStep(s, Produce(i, actions[0]));
      MoveKeepsShape(s, Produce(i, actions[0]));
      StepBuffer(s.rings[i], actions[0]);
      assert Steps(i, actions)[1..] == Steps(i, actions[1..]);
      StepsRun(t, i, actions[1..]);
      assert t.rings[i := Run(t.rings[i], actions[1..])] == s.rings[i := Run(t.rings[i], actions[1..])];
    }
  }

  lemma ScriptProduces(record: Text)
    ensures forall k :: 0 <= k < |Script(record)| ==> IsProducers(Script(record)[k]) && !IsConsumers(Script(record)[k])
  {
    hide Script;
    forall k | 0 <= k < |Script(record)|
      ensures IsProducers(Script(record)[k]) && !IsConsumers(Script(record)[k])
    {
      ScriptAt(record, k);
    }
  }

  lemma {:induction false} ScriptAlone(script: seq<Action>, j: nat)
    requires j <= |script| && forall k :: 0 <= k < |script| ==> !IsConsumers(script[k])
    ensures Interleaves(script[j..], script, j)
    decreases |script| - j
  {
    if j < |script| {
      assert script[j..][0] == script[j] && script[j..][1..] == script[j + 1..];
      ScriptAlone(script, j + 1);
    }
  }

  /** The thread has handed over all that is published and is about to visit a ring; ring 0's producer rests. */
  ghost predicate Quiescent(s: System) {
    Arriving(s) && CaughtUp(s) && s.rings[0].producer.Idle?
  }

  lemma EmptyRing(s: System)
    requires Quiescent(s)
    ensures var r := s.rings[0]; Inv(r) && |r.buf| == r.cap > 0 && r.head == r.tail
  {
    hide EncodeAll, Region, From, Messages;
    var r := s.rings[0];
    assert From(s.handled, 0) == r.consumed == r.published;
    InvFacts(r);
    HeadIsTail(r);
  }

  lemma HeadIsTail(r: Ring)
    requires Inv(r) && r.consumed == r.published
    ensures r.head == r.tail
  {
  }

  /** The thread's steps change no producer. */
  lemma {:induction false} ProducersStay(s: System, n: nat)
    requires SysInv(s) && Shaped(s)
    ensures var t := Consumes(s, n);
      |t.rings| == |s.rings|
      && forall i :: 0 <= i < |s.rings| ==>
           t.rings[i].producer == s.rings[i].producer && t.rings[i].cap == s.rings[i].cap
    decreases n
  {
    hide SysInv, ConsumeStep;
    if n > 0 {
      OneStays(s);
      ConsumeKeeps(s);
      MoveKeepsShape(s, Consume);
      ProducersStay(ConsumeStep(s), n - 1);
    }
  }

  lemma OneStays(s: System)
    requires SysInv(s) && Shaped(s)
    ensures var t := ConsumeStep(s);
      |t.rings| == |s.rings|
      && forall i :: 0 <= i < |s.rings| ==>
           t.rings[i].producer == s.rings[i].producer && t.rings[i].cap == s.rings[i].cap
  {
    hide Inv, Step, From, Messages, ReadAll, PhaseFits;
    forall a: Action | IsConsumers(a)
      ensures var r, r' := s.rings[s.current], Step(s.rings[s.current], a); r'.producer == r.producer && r'.cap == r.cap
    {
      ConsumerLeaves(s.rings[s.current], a);
    }
  }

  /** One record more: the producer alone, then the thread alone until it has caught up. */
  lemma CarryOne(s: System, record: Text) returns (moves: seq<Move>)
    requires Shaped(s) && Quiescent(s) && |record| + RECORD_HEADER <= s.rings[0].cap
    ensures var t := RunAll(s, moves);
      && Shaped(t) && Quiescent(t) && |t.rings| == |s.rings| && t.rings[0].cap == s.rings[0].cap
      && t.rings[0].published == s.rings[0].published + [record]
      && forall i :: 0 < i < |s.rings| ==> t.rings[i].published == s.rings[i].published
  {
    hide Inv, From, Messages, Latency.Run, Run, Script, CaughtUp, RunAll, Consumes, Interleaves, MoveStep;
    var r, script := s.rings[0], Script(record);
    EmptyRing(s);
    ScriptProduces(record);
    ScriptAlone(script, 0);
    assert script[0..] == script;
    PublishesAsWritten(r, record, script);
    RunCapacity(r, script);
    StepsRun(s, 0, script);
    AllKeep(s, Steps(0, script));
    var u := RunAll(s, Steps(0, script));
    RunAllAppend(s, Steps(0, script), []);
    var n := CatchUp(u);
    ProducersStay(u, n);
    RestConsumes(u, n);
    RunAllAppend(s, Steps(0, script), Rest(n));
    moves := Steps(0, script) + Rest(n);
  }

  /** Some schedule carries any records that fit the ring, one after the other. */
  lemma {:induction false} CarryAll(s: System, records: seq<Text>) returns (moves: seq<Move>)
    requires Shaped(s) && Quiescent(s)
    requires forall k :: 0 <= k < |records| ==> |records[k]| + RECORD_HEADER <= s.rings[0].cap
    ensures var t := RunAll(s, moves);
      && |t.rings| == |s.rings| && t.rings[0].published == s.rings[0].published + records
      && forall i :: 0 < i < |s.rings| ==> t.rings[i].published == s.rings[i].published
    decreases |records|
  {
    hide Shaped, Quiescent, RunAll;
    if records == [] {
      moves := [];
      NoMoves(s);
      QuiescentRings(s);
      assert s.rings[0].published + [] == s.rings[0].published;
    } else {
      QuiescentRings(s);
      var a := CarryOne(s, records[0]);
      var t := RunAll(s, a);
      var b := CarryAll(t, records[1..]);
      RunAllAppend(s, a, b);
      moves := a + b;
      var p := s.rings[0].published;
      assert p + [records[0]] + records[1..] == p + records;
    }
  }

  lemma NoMoves(s: System)
    requires Shaped(s)
    ensures RunAll(s, []) == s
  {
  }

  lemma QuiescentRings(s: System)
    requires Quiescent(s)
    ensures |s.rings| > 0
  {
    hide Inv;
  }

  lemma StartQuiescent(s: System)
    requires Start(s) && Shaped(s)
    ensures Quiescent(s) && forall i :: 0 <= i < |s.rings| ==> s.rings[i].published == []
  {
    hide Inv;
    StartHolds(s);
    assert forall i: nat :: From(s.handled, i) == [];
  }

  lemma {:induction false} OnlyFirst(rings: seq<Ring>)
    requires rings != [] && forall i :: 0 < i < |rings| ==> rings[i].published == []
    ensures Published(rings) == rings[0].published
  {
    var n := |rings| - 1;
    if n == 0 {
      assert rings[..0] == [] && Published([]) == [];
      assert [] + rings[0].published == rings[0].published;
    } else {
      OnlyFirst(rings[..n]);
      assert rings[0].published + [] == rings[0].published;
    }
  }

  /** From the start, some schedule makes the rings carry exactly the given records, if each fits the first ring. */
  lemma SomeSchedule(s: System, records: seq<Text>) returns (moves: seq<Move>)
    requires Start(s) && Shaped(s)
    requires forall k :: 0 <= k < |records| ==> |records[k]| + RECORD_HEADER <= s.rings[0].cap
    ensures Published(RunAll(s, moves).rings) == records
  {
    hide RunAll, Published;
    StartQuiescent(s);
    moves := CarryAll(s, records);
    var t := RunAll(s, moves);
    assert [] + records == records;
    OnlyFirst(t.rings);
  }
}
