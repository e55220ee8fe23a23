/** The probe over a whole interleaving of packets: what reaches the ring is what the streams carried. */
module ProbeRun {
  import opened Bytes
  import opened Options
  import opened FixParser
  import opened FixDetails
  import opened Selection
  import opened FixStream
  import opened FixRuns
  import opened FragmentStore
  import opened Horspool
  import SpscRing
  import Latency
  import Sweep
  import SweepProgress
  import Producing
  import opened SummaryWriter
  import opened FixProbe
  import opened KHash

  /**
   The probe's state after an interleaving of packets, each as ExtractFixMessages leaves it; None on a fault.
   Between packets the consumer moves on: sides[i] is its side of the ring when packet i is looked at.
   */
  function Probed(p: ProbeState, arrivals: seq<Arrival>, sides: seq<ConsumerSide>): Option<ProbeState>
    requires |sides| == |arrivals|
    decreases arrivals
  {
    if arrivals == [] then Some(p)
    else
      var a := arrivals[0];
      match Extract(Lookup(p.frags, a.id), a.packet.data, a.packet.beyond)
      case Fault => None
      case Extracted(frag, done, corrupt) =>
        var q := Advance(p.(side := sides[0]), a.id, frag, done, corrupt, a.packet.sec, a.packet.nsec);
        Probed(q, arrivals[1..], sides[1..])
  }

  lemma ProbedNone(p: ProbeState)
    ensures Probed(p, [], []) == Some(p)
  {
  }

  function Still(side: ConsumerSide, n: nat): (sides: seq<ConsumerSide>)
    ensures |sides| == n
  {
    seq(n, _ => side)
  }

  lemma ProbedStep(p: ProbeState, arrivals: seq<Arrival>)
    requires arrivals != []
    ensures var a := arrivals[0];
      match Extract(Lookup(p.frags, a.id), a.packet.data, a.packet.beyond)
      case Fault => Probed(p, arrivals, Still(p.side, |arrivals|)).None?
      case Extracted(frag, done, corrupt) =>
        var q := Advance(p, a.id, frag, done, corrupt, a.packet.sec, a.packet.nsec);
        && q.side == p.side
        && Probed(p, arrivals, Still(p.side, |arrivals|)) == Probed(q, arrivals[1..], Still(p.side, |arrivals| - 1))
  {
    hide Extract, GiveAll;
    assert p.(side := p.side) == p;
    assert Still(p.side, |arrivals|)[1..] == Still(p.side, |arrivals| - 1);
  }

  /** After i packets, the consumer at rest, the state is q and what is left to do leads where all of it does. */
  predicate Along(p: ProbeState, q: ProbeState, arrivals: seq<Arrival>, i: nat)
    requires i <= |arrivals|
  {
    && q.side == p.side
    && Probed(p, arrivals, Still(p.side, |arrivals|)) == Probed(q, arrivals[i..], Still(p.side, |arrivals| - i))
  }

  lemma AlongStart(p: ProbeState, arrivals: seq<Arrival>)
    ensures Along(p, p, arrivals, 0)
  {
    hide Probed;
    assert arrivals[0..] == arrivals;
  }

  lemma AlongStep(p: ProbeState, q: ProbeState, arrivals: seq<Arrival>, i: nat)
    requires i < |arrivals| && Along(p, q, arrivals, i)
    ensures var a := arrivals[i];
      match Extract(Lookup(q.frags, a.id), a.packet.data, a.packet.beyond)
      case Fault => Probed(p, arrivals, Still(p.side, |arrivals|)).None?
      case Extracted(frag, done, corrupt) =>
        Along(p, Advance(q, a.id, frag, done, corrupt, a.packet.sec, a.packet.nsec), arrivals, i + 1)
  {
    hide Extract, Advance, Probed;
    ProbedStep(q, arrivals[i..]);
    assert arrivals[i..][1..] == arrivals[i + 1..];
  }

  lemma AlongEnd(p: ProbeState, q: ProbeState, arrivals: seq<Arrival>)
    requires Along(p, q, arrivals, |arrivals|)
    ensures Probed(p, arrivals, Still(p.side, |arrivals|)) == Some(q)
  {
    hide Probed;
    ProbedNone(q);
    assert arrivals[|arrivals|..] == [] && Still(p.side, 0) == [];
  }

  /** The capture thread on real objects, by itself: packet after packet, the run of the states; false on a fault. */
  method Capture(ctx: CaptureContext, arrivals: seq<Arrival>) returns (ok: bool)
    requires ctx.Valid() && ctx.fragments.table.nBuckets <= MAX_BUCKETS / 2
    requires ctx.fragments.table.size + |arrivals| <= MANY_KEYS
    modifies ctx`counters, ctx.ring, ctx.ring.buffer, ctx.fragments.table.Repr()
    ensures ctx.Valid()
    ensures match Probed(old(ctx.State()), arrivals, Still(old(ctx.State()).side, |arrivals|))
      case None => !ok
      case Some(q) => ok && ctx.State() == q
  {
    hide Extract, Advance, Along, Probed, Still, Placed, NonEmpty, Meaning, StoreOf, NoNull, GoodShift, SpscRing.Inv;
    ghost var p := ctx.State();
    AlongStart(p, arrivals);
    for i := 0 to |arrivals|
      invariant ctx.Valid() && ctx.fragments.table.nBuckets <= MAX_BUCKETS / 2
      invariant ctx.fragments.table.size <= old(ctx.fragments.table.size) + i
      invariant forall o :: o in ctx.fragments.table.Repr() ==> o in old(ctx.fragments.table.Repr()) || fresh(o)
      invariant Along(p, ctx.State(), arrivals, i)
    {
      var a := arrivals[i];
      AlongStep(p, ctx.State(), arrivals, i);
      var good := ctx.ExtractFixMessages(a.id, a.packet.sec, a.packet.nsec, a.packet.data, a.packet.beyond);
      if !good {
        return false;
      }
    }
    AlongEnd(p, ctx.State(), arrivals);
    return true;
  }

  /** The records, at most one, that a completed parse leads to. */
  function Records(s: Stamped): seq<Text> {
    var d := DetailsOf(s.outcome.fields);
    if s.outcome.result == OK && ShouldProcess(d) then [ProcessedRecord(d, s.sec, s.nsec)] else []
  }

  /** The bytes of a record: time stamp, message type and length of the key in place, and the key with its NUL. */
  predicate LaidOut(r: Text, sec: nat, nsec: nat, msgType: int, key: Text) {
    && |r| == 24 + |key| + 1
    && FromLE(r[..8]) == sec && FromLE(r[8..16]) == nsec
    && FromLE(r[16..20]) == msgType && FromLE(r[20..24]) == |key|
    && r[24..] == key + [NUL]
  }

  lemma SerializedLayout(m: Summary)
    requires m.sec < Pow256(8) && m.nsec < Pow256(8) && 0 <= m.msgType < Pow256(4) && |m.key| < Pow256(4)
    ensures LaidOut(Serialize(m), m.sec, m.nsec, m.msgType, m.key)
  {
    hide LE, FromLE, Pow256;
    var r := Serialize(m);
    LERoundTrip(m.sec, 8);
    LERoundTrip(m.nsec, 8);
    LERoundTrip(m.msgType, 4);
    LERoundTrip(|m.key|, 4);
    assert r[..8] == LE(m.sec, 8) && r[8..16] == LE(m.nsec, 8);
    assert r[16..20] == LE(m.msgType, 4) && r[20..24] == LE(|m.key|, 4);
  }

  /**
   A stamped parse leads to one record exactly when it succeeds and its fields take part; the record holds the
   seconds, the nanoseconds, the type that the fields name and their key, each in its place.
   */
  lemma RecordsOnWire(s: Stamped)
    requires s.sec < Pow256(8) && s.nsec < Pow256(8) && |KeyOnWire(s.outcome.fields)| < Pow256(4)
    ensures var rs, fields := Records(s), s.outcome.fields;
      && |rs| == (if s.outcome.result == OK && TakesPart(fields) then 1 else 0)
      && forall name :: name in ["D", "8", "i", "b", "xr", "xs"] && rs != [] && TypeIs(fields, name) ==>
           LaidOut(rs[0], s.sec, s.nsec, Code(name), KeyOnWire(fields))
  {
    hide DetailsOf, TakesPart, TypeIs, KeyOf, KeyOnWire, Serialize, LaidOut, Pow256, Code;
    var fields := s.outcome.fields;
    Selected(fields);
    KeyIsOnWire(fields);
    if s.outcome.result == OK && TakesPart(fields) {
      var m := SummaryOf(DetailsOf(fields), s.sec, s.nsec);
      TypesFit(DetailsOf(fields));
      SerializedLayout(m);
      forall name | name in ["D", "8", "i", "b", "xr", "xs"] && TypeIs(fields, name)
        ensures LaidOut(Serialize(m), s.sec, s.nsec, Code(name), KeyOnWire(fields))
      {
        TypeIsCode(fields, name);
      }
    }
  }

  function RecordsOf(log: seq<Tagged>): seq<Text> {
    if log == [] then [] else RecordsOf(log[..|log| - 1]) + Records(log[|log| - 1].entry)
  }

  /** The records that an interleaving of packets offers to the ring. */
  function Offered(arrivals: seq<Arrival>): seq<Text> {
    match RunAll(map[], arrivals)
    case AllBroken => []
    case AllRan(_, log) => RecordsOf(log)
  }

  function Untagged(log: seq<Tagged>): (r: seq<Stamped>)
    ensures |r| == |log|
  {
    seq(|log|, i requires 0 <= i < |log| => log[i].entry)
  }

  /** The summaries of the messages that an interleaving of packets completes. */
  function Sent(arrivals: seq<Arrival>): seq<Summary> {
    match RunAll(map[], arrivals)
    case AllBroken => []
    case AllRan(_, log) => Emitted(Untagged(log))
  }

  function OfferAll(out: Output, records: seq<Text>, head: nat, cap: nat): Output {
    if records == [] then out
    else Offer(OfferAll(out, records[..|records| - 1], head, cap), records[|records| - 1], head, cap)
  }

  /** The ring space that records take. */
  function Space(records: seq<Text>): nat {
    if records == [] then 0 else Space(records[..|records| - 1]) + |records[|records| - 1]| + SpscRing.RECORD_HEADER
  }

  lemma {:induction false} OfferAppend(out: Output, a: seq<Text>, b: seq<Text>, head: nat, cap: nat)
    ensures OfferAll(OfferAll(out, a, head, cap), b, head, cap) == OfferAll(out, a + b, head, cap)
  {
    hide Offer;
    if b == [] {
      assert a + b == a;
    } else {
      OfferAppend(out, a, b[..|b| - 1], head, cap);
      assert (a + b)[..|a + b| - 1] == a + b[..|b| - 1];
    }
  }

  lemma {:induction false} RecordsAppend(a: seq<Tagged>, b: seq<Tagged>)
    ensures RecordsOf(a + b) == RecordsOf(a) + RecordsOf(b)
  {
    hide Records;
    if b == [] {
      assert a + b == a;
    } else {
      RecordsAppend(a, b[..|b| - 1]);
      assert (a + b)[..|a + b| - 1] == a + b[..|b| - 1];
    }
  }

  /** Records that all fit are all published, in order. */
  lemma {:induction false} NothingDropped(out: Output, records: seq<Text>, head: nat, cap: nat)
    requires Space(records) <= cap - (out.tail - head)
    ensures OfferAll(out, records, head, cap) == Output(out.published + records, out.tail + Space(records))
  {
    if records == [] {
      assert out.published + records == out.published;
    } else {
      var n := |records| - 1;
      NothingDropped(out, records[..n], head, cap);
      assert out.published + records[..n] + [records[n]] == out.published + records;
    }
  }

  lemma GiveOne(p: ProbeState, o: Outcome, sec: nat, nsec: nat)
    ensures Give(p, o, sec, nsec).out == OfferAll(p.out, Records(Stamped(o, sec, nsec)), p.side.head, p.cap)
  {
    hide DetailsOf, ProcessedRecord, Offer, ShouldProcess;
    var rs := Records(Stamped(o, sec, nsec));
    if rs != [] { assert rs[..0] == []; }
  }

  lemma RecordsSnoc(log: seq<Tagged>)
    ensures RecordsOf(log) == if log == [] then [] else RecordsOf(log[..|log| - 1]) + Records(log[|log| - 1].entry)
  {
    hide Records;
  }

  lemma OfferNone(out: Output, head: nat, cap: nat)
    ensures OfferAll(out, [], head, cap) == out
  {
  }

  /** The parses of one packet offer their records, in order. */
  lemma {:induction false} GiveAllOffers(p: ProbeState, id: StreamId, done: seq<Outcome>, k: Packet)
    ensures GiveAll(p, done, k.sec, k.nsec).out == OfferAll(p.out, RecordsOf(Tag(id, Stamp(done, k))), p.side.head,
        p.cap)
  {
    hide Give, Records, OfferAll, RecordsOf;
    var log := Tag(id, Stamp(done, k));
    RecordsSnoc(log);
    OfferNone(p.out, p.side.head, p.cap);
    if done != [] {
      var n := |done| - 1;
      GiveAllOffers(p, id, done[..n], k);
      assert log[..n] == Tag(id, Stamp(done[..n], k));
      GiveOne(GiveAll(p, done[..n], k.sec, k.nsec), done[n], k.sec, k.nsec);
      assert log[n].entry == Stamped(done[n], k.sec, k.nsec);
      OfferAppend(p.out, RecordsOf(log[..n]), Records(log[n].entry), p.side.head, p.cap);
    }
  }

  /** What one packet's parses offer. */
  function Batch(a: Arrival, done: seq<Outcome>): seq<Text> {
    RecordsOf(Tag(a.id, Stamp(done, a.packet)))
  }

  /** The producer's side of the ring after an interleaving of packets, given where the consumer's head is at each. */
  function OutRun(out: Output, st: Store, arrivals: seq<Arrival>, sides: seq<ConsumerSide>, cap: nat): Output
    requires |sides| == |arrivals|
    decreases arrivals
  {
    if arrivals == [] then out
    else
      var a := arrivals[0];
      match Extract(Lookup(st, a.id), a.packet.data, a.packet.beyond)
      case Fault => out
      case Extracted(frag, done, _) =>
        var next := OfferAll(out, Batch(a, done), sides[0].head, cap);
        OutRun(next, Update(st, a.id, frag), arrivals[1..], sides[1..], cap)
  }

  /** At every packet the ring has room for that packet's records. */
  predicate RoomRun(out: Output, st: Store, arrivals: seq<Arrival>, sides: seq<ConsumerSide>, cap: nat)
    requires |sides| == |arrivals|
    decreases arrivals
  {
    arrivals != [] ==>
      var a := arrivals[0];
      match Extract(Lookup(st, a.id), a.packet.data, a.packet.beyond)
      case Fault => true
      case Extracted(frag, done, _) =>
        && Space(Batch(a, done)) <= cap - (out.tail - sides[0].head)
        && var next := OfferAll(out, Batch(a, done), sides[0].head, cap);
           RoomRun(next, Update(st, a.id, frag), arrivals[1..], sides[1..], cap)
  }

  /** With room at every packet all that is offered is published. */
  lemma {:induction false} RoomPublishes(out: Output, st: Store, arrivals: seq<Arrival>, sides: seq<ConsumerSide>,
      cap: nat)
    requires |sides| == |arrivals| && RunAll(st, arrivals).AllRan? && RoomRun(out, st, arrivals, sides, cap)
    ensures OutRun(out, st, arrivals, sides, cap).published == out.published + RecordsOf(RunAll(st, arrivals).log)
    decreases arrivals
  {
    hide Extract, Update, RecordsOf, OfferAll, Space, Tag, Stamp;
    NoRecords();
    if arrivals == [] {
      assert out.published + [] == out.published;
    } else {
      var a := arrivals[0];
      var e := Extract(Lookup(st, a.id), a.packet.data, a.packet.beyond);
      var st', now := Update(st, a.id, e.frag), Batch(a, e.done);
      var later := RunAll(st', arrivals[1..]).log;
      NothingDropped(out, now, sides[0].head, cap);
      RoomPublishes(OfferAll(out, now, sides[0].head, cap), st', arrivals[1..], sides[1..], cap);
      RecordsAppend(Tag(a.id, Stamp(e.done, a.packet)), later);
      assert out.published + now + RecordsOf(later) == out.published + (now + RecordsOf(later));
    }
  }

  lemma {:induction false} SpaceAppend(a: seq<Text>, b: seq<Text>)
    ensures Space(a + b) == Space(a) + Space(b)
  {
    if b == [] {
      assert a + b == a;
    } else {
      SpaceAppend(a, b[..|b| - 1]);
      assert (a + b)[..|a + b| - 1] == a + b[..|b| - 1];
    }
  }

  /** A ring with room for all records has it at every packet, even if the consumer rests. */
  lemma {:induction false} StillRoom(out: Output, st: Store, arrivals: seq<Arrival>, side: ConsumerSide, cap: nat)
    requires RunAll(st, arrivals).AllRan? && Space(RecordsOf(RunAll(st, arrivals).log)) <= cap - (out.tail - side.head)
    ensures RoomRun(out, st, arrivals, Still(side, |arrivals|), cap)
    decreases arrivals
  {
    hide Extract, Update, RecordsOf, OfferAll, Space, Tag, Stamp;
    if arrivals != [] {
      var a := arrivals[0];
      var e := Extract(Lookup(st, a.id), a.packet.data, a.packet.beyond);
      var st', now := Update(st, a.id, e.frag), Batch(a, e.done);
      var later := RunAll(st', arrivals[1..]).log;
      RecordsAppend(Tag(a.id, Stamp(e.done, a.packet)), later);
      SpaceAppend(now, RecordsOf(later));
      NothingDropped(out, now, side.head, cap);
      StillRoom(OfferAll(out, now, side.head, cap), st', arrivals[1..], side, cap);
      assert Still(side, |arrivals|)[1..] == Still(side, |arrivals| - 1);
    }
  }

  /** Packet by packet, the probe does what the run over the interleaving says: fragments kept and records offered. */
  lemma {:induction false} ProbedIsRunAll(p: ProbeState, arrivals: seq<Arrival>, sides: seq<ConsumerSide>)
    requires |sides| == |arrivals|
    ensures match RunAll(p.frags, arrivals)
      case AllBroken => Probed(p, arrivals, sides).None?
      case AllRan(store, log) =>
        && Probed(p, arrivals, sides).Some?
        && var q := Probed(p, arrivals, sides).value;
           q.frags == store && q.cap == p.cap && q.out == OutRun(p.out, p.frags, arrivals, sides, p.cap)
    decreases arrivals
  {
    hide Extract, Update, GiveAll, RecordsOf, Tag, Stamp;
    if arrivals != [] {
      var a, k, rest := arrivals[0], arrivals[0].packet, arrivals[1..];
      var e := Extract(Lookup(p.frags, a.id), k.data, k.beyond);
      if e.Extracted? {
        var moved := p.(side := sides[0]);
        var p' := Advance(moved, a.id, e.frag, e.done, e.corrupt, k.sec, k.nsec);
        GiveAllOffers(moved, a.id, e.done, k);
        ProbedIsRunAll(p', rest, sides[1..]);
      }
    }
  }

  lemma NoRecords()
    ensures RecordsOf([]) == []
  {
  }

  /** Packets of known connections only, each a clean stream cut without losing a header prefix. */
  ghost predicate CleanStreams(streams: map<StreamId, seq<Text>>, arrivals: seq<Arrival>) {
    && (forall i :: 0 <= i < |arrivals| ==> arrivals[i].id in streams)
    && forall id :: id in streams ==>
         OnStream(streams[id], [], PacketsOf(id, arrivals)) && NoLoss(streams[id], [], PacketsOf(id, arrivals))
  }

  /**
   End to end: on an interleaving of clean streams, each cut into packets without losing a header prefix,
   the probe never faults; each connection completes exactly the messages its bytes hold, in order, and keeps
   the rest; and when the ring has room at each packet, what it publishes is exactly their records.
   */
  lemma EndToEnd(p: ProbeState, streams: map<StreamId, seq<Text>>, arrivals: seq<Arrival>, sides: seq<ConsumerSide>)
    requires |sides| == |arrivals| && p.frags == map[] && CleanStreams(streams, arrivals)
    ensures RunAll(map[], arrivals).AllRan? && Probed(p, arrivals, sides).Some?
    ensures var log, q := RunAll(map[], arrivals).log, Probed(p, arrivals, sides).value;
      && (RoomRun(p.out, map[], arrivals, sides, p.cap) ==> q.out.published == p.out.published + Offered(arrivals))
      && forall id :: id in streams ==>
        var c := Split(streams[id], AllData(PacketsOf(id, arrivals)));
        OutcomesOf(LogOf(id, log)) == Outcomes(streams[id][..c.count]) && Lookup(q.frags, id) == Pending(c.rest)
  {
    hide Run, RunAll, Split, Outcomes, OutcomesOf, OnStream, NoLoss, LogOf, PacketsOf, RecordsOf, OfferAll, Space,
      AllData, RoomRun, OutRun;
    forall id ensures Run(Lookup(map[], id), PacketsOf(id, arrivals)).Ran? {
      if id in streams {
        Segmentation(streams[id], PacketsOf(id, arrivals));
      } else {
        Silent(id, arrivals);
      }
    }
    RunsIffAllRun(map[], arrivals);
    ProbedIsRunAll(p, arrivals, sides);
    var log := RunAll(map[], arrivals).log;
    forall id | id in streams
      ensures var c := Split(streams[id], AllData(PacketsOf(id, arrivals)));
        OutcomesOf(LogOf(id, log)) == Outcomes(streams[id][..c.count])
          && Lookup(Probed(p, arrivals, sides).value.frags, id) == Pending(c.rest)
    {
      Segmentation(streams[id], PacketsOf(id, arrivals));
      Isolation(map[], arrivals, id);
    }
    if RoomRun(p.out, map[], arrivals, sides, p.cap) { RoomPublishes(p.out, map[], arrivals, sides, p.cap); }
  }

  lemma {:induction false} Silent(id: StreamId, arrivals: seq<Arrival>)
    requires forall i :: 0 <= i < |arrivals| ==> arrivals[i].id != id
    ensures PacketsOf(id, arrivals) == [] && Run(None, PacketsOf(id, arrivals)).Ran?
  {
    if arrivals != [] { Silent(id, arrivals[1..]); }
  }

  // ----- To the latency thread

  lemma LogOfSplit(id: StreamId, log: seq<Tagged>)
    requires log != []
    ensures LogOf(id, log) == (if log[0].id == id then [log[0].entry] else []) + LogOf(id, log[1..])
  {
  }

  /** Every entry of the log is in its connection's part of it. */
  lemma {:induction false} InLogOf(log: seq<Tagged>, i: nat) returns (k: nat)
    requires i < |log|
    ensures k < |LogOf(log[i].id, log)| && LogOf(log[i].id, log)[k] == log[i].entry
  {
    hide LogOf;
    LogOfSplit(log[i].id, log);
    if i == 0 {
      k := 0;
    } else {
      var j := InLogOf(log[1..], i - 1);
      k := if log[0].id == log[i].id then j + 1 else j;
    }
  }

  /** Every entry of the log comes from one of the packets. */
  lemma {:induction false} FromPackets(st: Store, arrivals: seq<Arrival>, i: nat) returns (j: nat)
    requires RunAll(st, arrivals).AllRan? && i < |RunAll(st, arrivals).log|
    ensures var t := RunAll(st, arrivals).log[i];
      j < |arrivals| && t.id == arrivals[j].id && t.entry.sec == arrivals[j].packet.sec && t.entry.nsec
        == arrivals[j].packet.nsec
    decreases arrivals
  {
    hide Extract, Update;
    var a := arrivals[0];
    var e := Extract(Lookup(st, a.id), a.packet.data, a.packet.beyond);
    if i < |e.done| {
      j := 0;
    } else {
      var k := FromPackets(Update(st, a.id, e.frag), arrivals[1..], i - |e.done|);
      j := k + 1;
    }
  }

  /** The record of an entry reads back as its summary. */
  predicate ReadsBack(s: Stamped) {
    s.sec < Pow256(8) && s.nsec < Pow256(8) && NUL !in KeyOf(DetailsOf(s.outcome.fields))
  }

  lemma TypesFit(d: Details)
    requires ShouldProcess(d)
    ensures 0 < d.messageType < Pow256(4)
  {
    assert Pow256(4) == 256 * (256 * (256 * 256));
  }

  lemma RecordReadsBack(s: Stamped)
    requires ReadsBack(s)
    ensures Sweep.MessagesOf(Records(s)) == Summaries(s.outcome, s.sec, s.nsec)
  {
    hide DetailsOf, KeyOf, Serialize, Deserialize, CString, Pow256;
    var d := DetailsOf(s.outcome.fields);
    if s.outcome.result == OK && ShouldProcess(d) {
      TypesFit(d);
      var summary := SummaryOf(d, s.sec, s.nsec);
      SummaryRoundTrip(summary);
      CStringPlain(summary.key);
      assert Records(s) == [Serialize(summary)] && [Serialize(summary)][..0] == [];
      assert Sweep.MessagesOf([Serialize(summary)]) == Sweep.MessagesOf([]) + [Sweep.MessageOf(Serialize(summary))];
    }
  }

  lemma {:induction false} RecordsReadBack(log: seq<Tagged>)
    requires forall i :: 0 <= i < |log| ==> ReadsBack(log[i].entry)
    ensures Sweep.MessagesOf(RecordsOf(log)) == Emitted(Untagged(log))
  {
    hide Records, ReadsBack, Sweep.MessageOf, Summaries;
    if log != [] {
      var n := |log| - 1;
      RecordsReadBack(log[..n]);
      RecordReadsBack(log[n].entry);
      Sweep.MessagesOfAppend(RecordsOf(log[..n]), Records(log[n].entry));
      assert Untagged(log)[..n] == Untagged(log[..n]);
    }
  }

  /** Time stamps fit the 64 bits they are stored in; the capture hands over 32. */
  predicate TimesFit(arrivals: seq<Arrival>) {
    forall j :: 0 <= j < |arrivals| ==> arrivals[j].packet.sec < Pow256(8) && arrivals[j].packet.nsec < Pow256(8)
  }

  /** What a clean stream's messages lead to reads back. */
  lemma CleanReadsBack(streams: map<StreamId, seq<Text>>, arrivals: seq<Arrival>)
    requires CleanStreams(streams, arrivals)
    requires TimesFit(arrivals)
    ensures RunAll(map[], arrivals).AllRan?
    ensures var log := RunAll(map[], arrivals).log; forall i :: 0 <= i < |log| ==> ReadsBack(log[i].entry)
  {
    hide RunAll, Split, Outcomes, OutcomesOf, LogOf, PacketsOf, KeyOf, DetailsOf, AllData, Parse, Pow256, OnStream,
      NoLoss,
      Probed, RecordsOf, OfferAll, Space;
    var p := ProbeState(map[], Counters(0, 0, 0, 0), Output([], 0), ConsumerSide(0, 0, SpscRing.Resting, [], 0), 0);
    EndToEnd(p, streams, arrivals, Still(p.side, |arrivals|));
    var log := RunAll(map[], arrivals).log;
    forall i | 0 <= i < |log| ensures ReadsBack(log[i].entry) {
      var j := FromPackets(map[], arrivals, i);
      var id := log[i].id;
      var k := InLogOf(log, i);
      var ms := streams[id][..Split(streams[id], AllData(PacketsOf(id, arrivals))).count];
      OutcomeOfEntry(LogOf(id, log), ms, k);
      StreamPlain(streams[id], PacketsOf(id, arrivals), k);
      PlainKey(streams[id][k]);
    }
  }

  lemma OutcomeOfEntry(log: seq<Stamped>, ms: seq<Text>, k: nat)
    requires OutcomesOf(log) == Outcomes(ms) && k < |log|
    ensures k < |ms| && log[k].outcome == Parse(ms[k], DEFAULT)
  {
    hide Outcomes, Parse;
    LogLength(ms);
    assert OutcomesOf(log)[k] == log[k].outcome;
    OutcomeAt(ms, k);
  }

  lemma StreamPlain(ms: seq<Text>, packets: seq<Packet>, k: nat)
    requires OnStream(ms, [], packets) && k < |ms|
    ensures NUL !in ms[k]
  {
    CleanIsMessage(ms[k]);
  }

  /**
   From packets to latencies: clean streams whose messages pair up, one request and one matching response a
   key. Whatever the packets, the interleaving and the schedule of the latency thread, once the rings have
   carried the records offered, the thread comes to have recorded exactly the latencies of the pairs.
   */
  lemma PacketsToLatencies(streams: map<StreamId, seq<Text>>, arrivals: seq<Arrival>, s: Sweep.System,
      moves: seq<Sweep.Move>)
    returns (n: nat)
    requires CleanStreams(streams, arrivals) && Latency.Paired(Sent(arrivals))
    requires TimesFit(arrivals)
    requires Sweep.Start(s) && Sweep.Shaped(s)
    requires Sweep.Bag(Sweep.Published(Sweep.RunAll(s, moves).rings)) == Sweep.Bag(Offered(arrivals))
    ensures var t := Sweep.RunAll(s, moves + SweepProgress.Rest(n));
      && Sweep.CaughtUp(t) && t.table == map[]
      && multiset(t.log) == multiset(Latency.PairLatencies(Sent(arrivals)))
  {
    hide Latency.Paired, Latency.PairLatencies, Sweep.Start, Sweep.Shaped, Sweep.CaughtUp, Sweep.RunAll,
      Sweep.Published, Sweep.MessagesOf, RunAll, ReadsBack,
      RecordsOf, Emitted, CleanStreams;
    CleanReadsBack(streams, arrivals);
    RecordsReadBack(RunAll(map[], arrivals).log);
    n := SweepProgress.AnyScheduleSameLatencies(s, moves, Sent(arrivals));
  }

  /**
   ... and such a schedule exists: from the start, with a first ring that each record fits, the rings come to
   carry exactly the records offered, and the thread to have recorded exactly the latencies of the pairs.
   */
  lemma SomeRunRecordsAll(streams: map<StreamId, seq<Text>>, arrivals: seq<Arrival>, s: Sweep.System)
    returns (moves: seq<Sweep.Move>)
    requires CleanStreams(streams, arrivals) && Latency.Paired(Sent(arrivals)) && TimesFit(arrivals)
    requires Sweep.Start(s) && Sweep.Shaped(s)
    requires forall k :: 0 <= k < |Offered(arrivals)| ==>
               |Offered(arrivals)[k]| + SpscRing.RECORD_HEADER <= s.rings[0].cap
    ensures var t := Sweep.RunAll(s, moves);
      && Sweep.CaughtUp(t) && Sweep.Published(t.rings) == Offered(arrivals) && t.table == map[]
      && multiset(t.log) == multiset(Latency.PairLatencies(Sent(arrivals)))
  {
    hide Latency.Paired, Latency.PairLatencies, Sweep.Start, Sweep.Shaped, Sweep.CaughtUp, Sweep.RunAll,
      Sweep.Published, Sweep.MessagesOf, Offered, Sent, CleanStreams;
    var carry := Producing.SomeSchedule(s, Offered(arrivals));
    var n := SweepProgress.CatchesUp(s, carry);
    moves := carry + SweepProgress.Rest(n);
    SweepProgress.PublishedSame(Sweep.RunAll(s, carry).rings, Sweep.RunAll(s, moves).rings);
    CaughtUpOnPackets(streams, arrivals, s, moves);
  }

  lemma CaughtUpOnPackets(streams: map<StreamId, seq<Text>>, arrivals: seq<Arrival>, s: Sweep.System,
      moves: seq<Sweep.Move>)
    requires CleanStreams(streams, arrivals) && Latency.Paired(Sent(arrivals)) && TimesFit(arrivals)
    requires Sweep.Start(s) && Sweep.Shaped(s) && Sweep.CaughtUp(Sweep.RunAll(s, moves))
    requires Sweep.Bag(Sweep.Published(Sweep.RunAll(s, moves).rings)) == Sweep.Bag(Offered(arrivals))
    ensures var t := Sweep.RunAll(s, moves);
      t.table == map[] && multiset(t.log) == multiset(Latency.PairLatencies(Sent(arrivals)))
  {
    hide Latency.Paired, Latency.PairLatencies, Sweep.Start, Sweep.Shaped, Sweep.CaughtUp, Sweep.RunAll,
      Sweep.Published, Sweep.MessagesOf, RunAll, ReadsBack, RecordsOf, Emitted, CleanStreams;
    CleanReadsBack(streams, arrivals);
    RecordsReadBack(RunAll(map[], arrivals).log);
    Sweep.CaughtUpLatencies(s, moves, Sent(arrivals));
  }
}
