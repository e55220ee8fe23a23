/** The latency thread makes progress: what is published is handed over, the record polled at the limit included. */
module SweepProgress {
  import opened Bytes
  import opened FixDetails
  import opened SpscRing
  import opened Sweep
  import Latency

  /** n steps of the latency thread while the producers rest. */
  function Consumes(s: System, n: nat): (t: System)
    requires Shaped(s)
    ensures Shaped(t) && |t.rings| == |s.rings|
    decreases n
  {
    if n == 0 then s
    else
      MoveKeepsShape(s, Consume);
      Consumes(ConsumeStep(s), n - 1)
  }

  lemma {:induction false} ConsumesAdd(s: System, a: nat, b: nat)
    requires Shaped(s)
    ensures Consumes(Consumes(s, a), b) == Consumes(s, a + b)
    decreases a
  {
    hide ConsumeStep;
    if a > 0 {
      MoveKeepsShape(s, Consume);
      ConsumesAdd(ConsumeStep(s), a - 1, b);
    }
  }

  lemma ConsumesOne(s: System)
    requires Shaped(s)
    ensures Consumes(s, 1) == ConsumeStep(s)
  {
    hide ConsumeStep;
    MoveKeepsShape(s, Consume);
    assert Consumes(ConsumeStep(s), 0) == ConsumeStep(s);
  }

  /** The records of a ring that are published and not yet consumed. */
  function Left(r: Ring): int {
    |r.published| - |r.consumed|
  }

  /** Between s and t the first k records left in the ring of s have been handed over, and nothing else happened. */
  ghost predicate HandedOver(s: System, t: System, k: nat)
    requires s.current < |s.rings|
  {
    var c := s.current;
    && |t.rings| == |s.rings|
    && (forall i :: 0 <= i < |s.rings| && i != c ==> t.rings[i] == s.rings[i])
    && t.rings[c].published == s.rings[c].published
    && |s.rings[c].consumed| + k == |t.rings[c].consumed| <= |s.rings[c].published|
    && t.handled == s.handled + Entries(c, s.rings[c].published[|s.rings[c].consumed|..|s.rings[c].consumed| + k])
  }

  /** ... in the same visit of the ring. */
  ghost predicate Advanced(s: System, t: System, k: nat)
    requires s.current < |s.rings|
  {
    SysInv(t) && Shaped(t) && t.current == s.current && t.visit == s.visit + k && HandedOver(s, t, k)
  }

  /** The thread is about to begin its visit of a ring. */
  ghost predicate Arriving(t: System) {
    SysInv(t) && Shaped(t) && t.phase.Polling? && t.pollLimit == MAX_POLLS && t.visit == 0
  }

  function NextIndex(s: System): nat {
    if s.current + 1 < |s.rings| then s.current + 1 else 0
  }

  /** ... and the visit is over. */
  ghost predicate Gone(s: System, t: System, k: nat)
    requires s.current < |s.rings|
  {
    Arriving(t) && t.current == NextIndex(s) && HandedOver(s, t, k)
  }

  function Entries(ring: nat, records: seq<Text>): (es: seq<Entry>)
    ensures |es| == |records|
  {
    seq(|records|, i requires 0 <= i < |records| => Entry(ring, records[i]))
  }

  lemma AdvancedNothing(s: System)
    requires SysInv(s) && Shaped(s)
    ensures Advanced(s, s, 0)
  {
    hide Inv, From, Messages;
    InvFacts(s.rings[s.current]);
    assert s.handled + [] == s.handled;
  }

  lemma HandedTwice(s: System, t: System, u: System, j: nat, k: nat)
    requires s.current < |s.rings| && t.current == s.current && HandedOver(s, t, j) && HandedOver(t, u, k)
    ensures HandedOver(s, u, j + k)
  {
    var p, a := s.rings[s.current].published, |s.rings[s.current].consumed|;
    var x, y := Entries(s.current, p[a..a + j]), Entries(s.current, p[a + j..a + j + k]);
    assert x + y == Entries(s.current, p[a..a + j + k]);
    assert s.handled + x + y == s.handled + (x + y);
  }

  // ----- The steps of a visit

  lemma PollSeesRecord(r: Ring)
    requires Inv(r) && !r.consumer.NeedTail?
    ensures var r' := Step(r, Poll);
      && r'.published == r.published && r'.consumed == r.consumed
      && (r'.consumer.NeedTail? || r'.consumer.Reading?)
      && (Left(r) == 0 ==> r'.consumer.NeedTail?)
  {
    hide Region, EncodeAll;
    PollKeeps(r);
    if Left(r) == 0 { assert r.seen == |r.consumed|; }
  }

  lemma TailSeesRecord(r: Ring)
    requires Inv(r) && r.consumer.NeedTail?
    ensures var r' := Step(r, LoadTail);
      && r'.published == r.published && r'.consumed == r.consumed
      && (if Left(r) == 0 then r'.consumer.Resting? else r'.consumer.Reading?)
  {
    NullMeansEmpty(r);
    hide Region, EncodeAll;
    assert r.consumed == r.published <==> Left(r) == 0 by { InvFacts(r); }
  }

  /** The step after a poll that found nothing new in the cache: the shared tail is loaded. */
  lemma LoadVisit(s: System)
    requires SysInv(s) && Shaped(s) && s.phase.LoadingTail?
    ensures var t := ConsumeStep(s);
      if Left(s.rings[s.current]) > 0 then Advanced(s, t, 0) && t.phase.Polled? && t.pollLimit == s.pollLimit
      else Gone(s, t, 0)
  {
    hide Inv, Step, From, Messages;
    InvFacts(s.rings[s.current]);
    TailSeesRecord(s.rings[s.current]);
    ConsumeKeeps(s);
    MoveKeepsShape(s, Consume);
    AdvancedNothing(s);
  }

  /** From a poll: a record is found, or there is none and the visit is over. */
  lemma PollVisit(s: System) returns (n: nat)
    requires SysInv(s) && Shaped(s) && s.phase.Polling?
    ensures var t := Consumes(s, n);
      if Left(s.rings[s.current]) > 0 then Advanced(s, t, 0) && t.phase.Polled? && t.pollLimit == s.pollLimit
      else Gone(s, t, 0)
  {
    hide Inv, Step, From, Messages;
    var r, c := s.rings[s.current], s.current;
    InvFacts(r);
    PollSeesRecord(r);
    ConsumeKeeps(s);
    ConsumesOne(s);
    AdvancedNothing(s);
    MoveKeepsShape(s, Consume);
    var t := ConsumeStep(s);
    assert Advanced(s, t, 0) && t.pollLimit == s.pollLimit;
    n := 1;
    if t.phase.LoadingTail? {
      LoadVisit(t);
      ConsumesOne(t);
      ConsumesAdd(s, 1, 1);
      HandedTwice(s, t, ConsumeStep(t), 0, 0);
      n := 2;
    }
  }

  /** How much of its record the consumer still has to read. */
  function Unread(r: Ring): int {
    if r.consumer.Reading? && |r.consumed| < |r.published| then
      |Encoded(r.published[|r.consumed|])| - |r.consumer.got|
    else 0
  }

  lemma ReadOn(r: Ring)
    requires Inv(r) && r.consumer.Reading? && !ReadAll(r.consumer.got)
    ensures var r' := Step(r, Read);
      r'.published == r.published && r'.consumed == r.consumed && 0 <= Unread(r') < Unread(r)
  {
    hide ReadAll, Region, Encoded, EncodeAll;
    InvFacts(r);
    ReadKeeps(r);
    InvFacts(Step(r, Read));
  }

  lemma ReadVisit(s: System)
    requires SysInv(s) && Shaped(s) && s.phase.Copying? && !ReadAll(s.rings[s.current].consumer.got)
    ensures var t := ConsumeStep(s);
      && Advanced(s, t, 0) && t.phase.Copying? && t.pollLimit == s.pollLimit
      && 0 <= Unread(t.rings[s.current]) < Unread(s.rings[s.current])
  {
    hide Inv, Step, From, Messages, Unread, ReadAll;
    InvFacts(s.rings[s.current]);
    ReadOn(s.rings[s.current]);
    ConsumeKeeps(s);
    MoveKeepsShape(s, Consume);
    AdvancedNothing(s);
  }

  /** The record that has been read is handed over and released. */
  lemma HandVisit(s: System)
    requires SysInv(s) && Shaped(s) && s.phase.Copying? && ReadAll(s.rings[s.current].consumer.got)
    ensures var t := Consumes(s, 2);
      Advanced(s, t, 1) && t.phase.Polling? && t.pollLimit == s.pollLimit
  {
    hide Inv, From, Messages, Latency.Run, Latency.Next, Latency.Recorded, ReadAll, LengthAt, Encoded;
    var r, c := s.rings[s.current], s.current;
    InvFacts(r);
    var record := r.published[|r.consumed|];
    NotAllRead(record, r.consumer.got);
    EncodedParts(record);
    HandOver(s);
    MoveKeepsShape(s, Consume);
    var t := ConsumeStep(s);
    LetGo(t);
    MoveKeepsShape(t, Consume);
    ReleaseKeeps(r);
    var u := ConsumeStep(t);
    assert Entries(c, r.published[|r.consumed|..|r.consumed| + 1]) == [Entry(c, record)];
    ConsumesOne(s);
    ConsumesOne(t);
    ConsumesAdd(s, 1, 1);
  }

  /** From the start of the copy: the record is read, handed over and released. */
  lemma {:induction false} CopyVisit(s: System) returns (n: nat)
    requires SysInv(s) && Shaped(s) && s.phase.Copying?
    ensures var t := Consumes(s, n);
      Advanced(s, t, 1) && t.phase.Polling? && t.pollLimit == s.pollLimit
    decreases Unread(s.rings[s.current])
  {
    hide Inv, From, Messages, Latency.Run, Unread, ReadAll, ConsumeStep, HandedOver, Consumes;
    if ReadAll(s.rings[s.current].consumer.got) {
      HandVisit(s);
      n := 2;
    } else {
      ReadVisit(s);
      var t := ConsumeStep(s);
      ConsumesOne(s);
      var m := CopyVisit(t);
      ConsumesAdd(s, 1, m);
      HandedTwice(s, t, Consumes(t, m), 0, 1);
      n := 1 + m;
    }
  }

  /** The next record is taken, unless the limit of the visit is used up. */
  lemma PolledVisit(s: System)
    requires SysInv(s) && Shaped(s) && s.phase.Polled?
    ensures var t := ConsumeStep(s);
      if s.pollLimit > 1 then Advanced(s, t, 0) && t.phase.Copying? && t.pollLimit == s.pollLimit - 1
      else Gone(s, t, 0)
  {
    hide Inv, Step, From, Messages;
    ConsumeKeeps(s);
    MoveKeepsShape(s, Consume);
    AdvancedNothing(s);
  }

  function Min(a: int, b: int): int {
    if a < b then a else b
  }

  /**
   A visit of a ring from a poll on: exactly the records left are handed over, in order, up to what remains of
   the limit of nineteen; then the visit is over. A record polled at the limit stays for the next visit.
   */
  lemma {:induction false} VisitRing(s: System) returns (n: nat)
    requires SysInv(s) && Shaped(s) && s.phase.Polling?
    ensures s.pollLimit >= 1 && Left(s.rings[s.current]) >= 0
    ensures Gone(s, Consumes(s, n), Min(s.pollLimit - 1, Left(s.rings[s.current])))
    decreases s.pollLimit
  {
    hide ConsumeStep, Inv, SysInv, From, Messages, Latency.Run, Consumes, HandedOver, Advanced, Gone, Shaped;
    VisitBounds(s);
    var left := Left(s.rings[s.current]);
    var a := PollVisit(s);
    var t := Consumes(s, a);
    if left == 0 {
      n := a;
    } else {
      AdvancedFacts(s, t, 0);
      if s.pollLimit == 1 {
        PolledVisit(t);
        ConsumesOne(t);
        ConsumesAdd(s, a, 1);
        AdvancedGone(s, t, ConsumeStep(t), 0, 0);
        n := a + 1;
      } else {
        var b := TakeRecord(t);
        var v := Consumes(t, b);
        ConsumesAdd(s, a, b);
        AdvancedFacts(t, v, 1);
        var d := VisitRing(v);
        ConsumesAdd(t, b, d);
        ConsumesAdd(s, a, b + d);
        AdvancedGone(t, v, Consumes(v, d), 1, Min(v.pollLimit - 1, left - 1));
        AdvancedGone(s, t, Consumes(v, d), 0, 1 + Min(v.pollLimit - 1, left - 1));
        n := a + (b + d);
      }
    }
  }

  lemma VisitBounds(s: System)
    requires SysInv(s) && Shaped(s)
    ensures s.current < |s.rings| && s.pollLimit >= 1 && Left(s.rings[s.current]) >= 0
  {
    hide Inv, From, Messages;
    InvFacts(s.rings[s.current]);
  }

  lemma AdvancedFacts(s: System, t: System, k: nat)
    requires s.current < |s.rings| && Advanced(s, t, k)
    ensures SysInv(t) && Shaped(t) && t.current == s.current < |t.rings|
    ensures |t.rings[t.current].buf| == t.rings[t.current].cap > 0
    ensures Left(t.rings[s.current]) == Left(s.rings[s.current]) - k
  {
    hide SysInv;
    LeftAfter(s, t, k);
  }

  lemma AdvancedGone(s: System, t: System, u: System, j: nat, k: nat)
    requires s.current < |s.rings| && Advanced(s, t, j) && t.current < |t.rings| && Gone(t, u, k)
    ensures Gone(s, u, j + k)
  {
    hide SysInv, HandedOver;
    HandedTwice(s, t, u, j, k);
    SameCount(s, t, j);
  }

  lemma SameCount(s: System, t: System, k: nat)
    requires s.current < |s.rings| && HandedOver(s, t, k)
    ensures |t.rings| == |s.rings|
  {
  }

  /** A polled record below the limit: it is read, handed over and released. */
  lemma TakeRecord(s: System) returns (n: nat)
    requires SysInv(s) && Shaped(s) && s.phase.Polled? && s.pollLimit > 1
    ensures var t := Consumes(s, n);
      Advanced(s, t, 1) && t.phase.Polling? && t.pollLimit == s.pollLimit - 1
  {
    hide ConsumeStep, Inv, From, Messages, Latency.Run, Consumes, HandedOver;
    PolledVisit(s);
    ConsumesOne(s);
    var t := ConsumeStep(s);
    var m := CopyVisit(t);
    ConsumesAdd(s, 1, m);
    HandedTwice(s, t, Consumes(t, m), 0, 1);
    n := 1 + m;
  }

  lemma LeftAfter(s: System, t: System, k: nat)
    requires s.current < |s.rings| && HandedOver(s, t, k)
    ensures Left(t.rings[s.current]) == Left(s.rings[s.current]) - k
  {
  }

  // ----- Catching up

  /** The same rings with the same records published. */
  ghost predicate SamePublished(s: System, t: System) {
    |t.rings| == |s.rings| && forall i :: 0 <= i < |s.rings| ==> t.rings[i].published == s.rings[i].published
  }

  lemma HandedSame(s: System, t: System, k: nat)
    requires s.current < |s.rings| && HandedOver(s, t, k)
    ensures SamePublished(s, t)
  {
  }

  /** The records left in all rings. */
  function LeftIn(rings: seq<Ring>): int {
    if rings == [] then 0 else LeftIn(rings[..|rings| - 1]) + Left(rings[|rings| - 1])
  }

  lemma {:induction false} LeftChange(rings: seq<Ring>, rings': seq<Ring>, c: nat, k: int)
    requires |rings| == |rings'| && c < |rings| && Left(rings'[c]) == Left(rings[c]) - k
    requires forall i :: 0 <= i < |rings| && i != c ==> rings'[i] == rings[i]
    ensures LeftIn(rings') == LeftIn(rings) - k
  {
    hide Left;
    var n := |rings| - 1;
    if c == n {
      assert rings'[..n] == rings[..n];
    } else {
      LeftChange(rings[..n], rings'[..n], c, k);
    }
  }

  lemma {:induction false} LeftBounds(rings: seq<Ring>)
    requires forall i :: 0 <= i < |rings| ==> Left(rings[i]) >= 0
    ensures LeftIn(rings) >= 0
    ensures LeftIn(rings) == 0 <==> forall i :: 0 <= i < |rings| ==> Left(rings[i]) == 0
  {
    hide Left;
    if rings != [] {
      var n := |rings| - 1;
      LeftBounds(rings[..n]);
      assert forall i :: 0 <= i < n ==> rings[..n][i] == rings[i];
    }
  }

  lemma RingsBounded(s: System)
    requires SysInv(s)
    ensures forall i :: 0 <= i < |s.rings| ==> Left(s.rings[i]) >= 0
  {
    hide Inv, From, Messages, Latency.Run;
    forall i | 0 <= i < |s.rings| ensures Left(s.rings[i]) >= 0 {
      InvFacts(s.rings[i]);
    }
  }

  /** One visit from its start. */
  lemma VisitArriving(s: System) returns (n: nat)
    requires Arriving(s)
    ensures var t := Consumes(s, n);
      var k := Min(19, Left(s.rings[s.current]));
      && Arriving(t) && t.current == NextIndex(s) && HandedOver(s, t, k) && SamePublished(s, t)
      && LeftIn(t.rings) == LeftIn(s.rings) - k
  {
    hide Inv, From, Messages, Latency.Run, Left, HandedOver, Consumes, LeftIn;
    n := VisitRing(s);
    var t := Consumes(s, n);
    var k := Min(19, Left(s.rings[s.current]));
    HandedSame(s, t, k);
    LeftAfter(s, t, k);
    HandedRings(s, t, k);
    LeftChange(s.rings, t.rings, s.current, k);
  }

  lemma HandedRings(s: System, t: System, k: nat)
    requires s.current < |s.rings| && HandedOver(s, t, k)
    ensures |t.rings| == |s.rings| && forall i :: 0 <= i < |s.rings| && i != s.current ==> t.rings[i] == s.rings[i]
  {
  }

  /** Visit after visit the thread comes to a ring with records left, and hands some over. */
  lemma {:induction false} SweepOn(s: System, j: nat) returns (n: nat)
    requires Arriving(s) && j < |s.rings| && Left(s.rings[j]) > 0
    ensures var t := Consumes(s, n);
      Arriving(t) && SamePublished(s, t) && LeftIn(t.rings) < LeftIn(s.rings)
    decreases if j >= s.current then j - s.current else j + |s.rings| - s.current
  {
    hide Inv, From, Messages, Latency.Run, Left, HandedOver, Consumes, LeftIn;
    RingsBounded(s);
    n := VisitArriving(s);
    if Left(s.rings[s.current]) == 0 {
      var t := Consumes(s, n);
      HandedRings(s, t, 0);
      var m := SweepOn(t, j);
      ConsumesAdd(s, n, m);
      n := n + m;
    }
  }

  /** Sweep after sweep everything that has been published is handed over. */
  lemma {:induction false} CatchUp(s: System) returns (n: nat)
    requires Arriving(s)
    ensures var t := Consumes(s, n); Arriving(t) && SamePublished(s, t) && CaughtUp(t)
    decreases LeftIn(s.rings)
  {
    hide Inv, From, Messages, Latency.Run, Left, Consumes, LeftIn, CaughtUp;
    RingsBounded(s);
    LeftBounds(s.rings);
    if LeftIn(s.rings) == 0 {
      NothingLeft(s);
      n := 0;
      ConsumesNone(s);
    } else {
      var j :| 0 <= j < |s.rings| && Left(s.rings[j]) != 0;
      var a := SweepOn(s, j);
      var t := Consumes(s, a);
      RingsBounded(t);
      LeftBounds(t.rings);
      var b := CatchUp(t);
      ConsumesAdd(s, a, b);
      n := a + b;
    }
  }

  lemma ConsumesNone(s: System)
    requires Shaped(s)
    ensures Consumes(s, 0) == s
  {
  }

  lemma NothingLeft(s: System)
    requires Arriving(s) && forall i :: 0 <= i < |s.rings| ==> Left(s.rings[i]) == 0
    ensures CaughtUp(s)
  {
    hide Inv, From, Messages, Latency.Run;
    forall i | 0 <= i < |s.rings| ensures From(s.handled, i) == s.rings[i].published {
      InvFacts(s.rings[i]);
    }
  }

  // ----- From any reachable state

  /** The visit under way comes to its end. */
  lemma Arrive(s: System) returns (n: nat)
    requires SysInv(s) && Shaped(s)
    ensures var t := Consumes(s, n); Arriving(t) && SamePublished(s, t)
  {
    hide Inv, From, Messages, Latency.Run, Left, HandedOver, Consumes, ConsumeStep, ReadAll;
    match s.phase
    case Polling => n := ArrivePolling(s);
    case LoadingTail =>
      LoadVisit(s);
      ConsumesOne(s);
      var t := ConsumeStep(s);
      HandedSame(s, t, 0);
      if t.phase.Polled? {
        var m := ArrivePolled(t);
        ConsumesAdd(s, 1, m);
        n := 1 + m;
      } else {
        n := 1;
      }
    case Polled => n := ArrivePolled(s);
    case Copying => n := ArriveCopying(s);
    case Releasing =>
      ReleaseVisit(s);
      ConsumesOne(s);
      var m := ArrivePolling(ConsumeStep(s));
      ConsumesAdd(s, 1, m);
      n := 1 + m;
  }

  lemma ReleaseVisit(s: System)
    requires SysInv(s) && Shaped(s) && s.phase.Releasing?
    ensures var t := ConsumeStep(s); SysInv(t) && Shaped(t) && t.phase.Polling? && SamePublished(s, t)
  {
    hide Inv, From, Messages, Latency.Run, ReadAll, LengthAt;
    ConsumeKeeps(s);
    MoveKeepsShape(s, Consume);
  }

  lemma ArrivePolling(s: System) returns (n: nat)
    requires SysInv(s) && Shaped(s) && s.phase.Polling?
    ensures var t := Consumes(s, n); Arriving(t) && SamePublished(s, t)
  {
    hide Inv, From, Messages, Latency.Run, Left, HandedOver, Consumes;
    n := VisitRing(s);
    HandedSame(s, Consumes(s, n), Min(s.pollLimit - 1, Left(s.rings[s.current])));
  }

  lemma ArriveCopying(s: System) returns (n: nat)
    requires SysInv(s) && Shaped(s) && s.phase.Copying?
    ensures var t := Consumes(s, n); Arriving(t) && SamePublished(s, t)
  {
    hide Inv, From, Messages, Latency.Run, HandedOver, Consumes;
    var a := CopyVisit(s);
    HandedSame(s, Consumes(s, a), 1);
    var b := ArrivePolling(Consumes(s, a));
    ConsumesAdd(s, a, b);
    n := a + b;
  }

  lemma ArrivePolled(s: System) returns (n: nat)
    requires SysInv(s) && Shaped(s) && s.phase.Polled?
    ensures var t := Consumes(s, n); Arriving(t) && SamePublished(s, t)
  {
    hide Inv, From, Messages, Latency.Run, HandedOver, Consumes, ConsumeStep;
    PolledVisit(s);
    ConsumesOne(s);
    HandedSame(s, ConsumeStep(s), 0);
    n := 1;
    if s.pollLimit > 1 {
      var m := ArriveCopying(ConsumeStep(s));
      ConsumesAdd(s, 1, m);
      n := 1 + m;
    }
  }

  /** The thread alone for n steps. */
  function Rest(n: nat): (moves: seq<Move>)
    ensures |moves| == n
  {
    seq(n, _ => Consume)
  }

  lemma {:induction false} RestConsumes(s: System, n: nat)
    requires Shaped(s)
    ensures RunAll(s, Rest(n)) == Consumes(s, n)
    decreases n
  {
    hide ConsumeStep;
    if n > 0 {
      MoveKeepsShape(s, Consume);
      assert Rest(n)[1..] == Rest(n - 1);
      RestConsumes(ConsumeStep(s), n - 1);
    }
  }

  lemma {:induction false} RunAllAppend(s: System, a: seq<Move>, b: seq<Move>)
    requires Shaped(s)
    ensures Shaped(RunAll(s, a)) && RunAll(RunAll(s, a), b) == RunAll(s, a + b)
    decreases |a|
  {
    hide MoveStep, Shaped;
    if a == [] {
      assert a + b == b;
    } else {
      MoveKeepsShape(s, a[0]);
      RunAllAppend(MoveStep(s, a[0]), a[1..], b);
      assert (a + b)[1..] == a[1..] + b;
    }
  }

  /**
   Progress: from every reachable state, once the producers rest, the thread alone comes to a state in which
   exactly what has been published has been handed over, ring by ring and in order.
   */
  lemma CatchesUp(s: System, moves: seq<Move>) returns (n: nat)
    requires Start(s) && Shaped(s)
    ensures var e, t := RunAll(s, moves), RunAll(s, moves + Rest(n));
      SamePublished(e, t) && CaughtUp(t)
  {
    hide SysInv, Consumes, CaughtUp, Start, RunAll, Shaped;
    StartHolds(s);
    AllKeep(s, moves);
    RunAllAppend(s, moves, []);
    var e := RunAll(s, moves);
    var a := Arrive(e);
    var b := CatchUp(Consumes(e, a));
    ConsumesAdd(e, a, b);
    n := a + b;
    RestConsumes(e, n);
    RunAllAppend(s, moves, Rest(n));
  }

  lemma {:induction false} PublishedSame(rings: seq<Ring>, rings': seq<Ring>)
    requires |rings| == |rings'| && forall i :: 0 <= i < |rings| ==> rings'[i].published == rings[i].published
    ensures Published(rings') == Published(rings)
  {
    if rings != [] { PublishedSame(rings[..|rings| - 1], rings'[..|rings| - 1]); }
  }

  /**
   End to end: if what the rings carried is one request and one matching response a key, then whatever the
   schedule and whatever rings the messages travelled through, the thread left to itself comes to have
   recorded exactly the pair latencies, with its table empty.
   */
  lemma AnyScheduleSameLatencies(s: System, moves: seq<Move>, msgs: seq<Summary>) returns (n: nat)
    requires Start(s) && Shaped(s)
    requires Latency.Paired(msgs) && Bag(Published(RunAll(s, moves).rings)) == multiset(msgs)
    ensures var t := RunAll(s, moves + Rest(n));
      CaughtUp(t) && t.table == map[] && multiset(t.log) == multiset(Latency.PairLatencies(msgs))
  {
    hide CaughtUp, Start, RunAll, Shaped, Latency.Paired, Bag, Published;
    n := CatchesUp(s, moves);
    PublishedSame(RunAll(s, moves).rings, RunAll(s, moves + Rest(n)).rings);
    CaughtUpLatencies(s, moves + Rest(n), msgs);
  }
}
