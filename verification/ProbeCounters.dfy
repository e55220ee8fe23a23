/** What the counters of the probe count, over any interleaving of packets. */
module ProbeCounters {
  import opened Bytes
  import opened Options
  import opened FixParser
  import opened FixDetails
  import opened FixVerdicts
  import opened Horspool
  import opened FixStream
  import opened FixRuns
  import opened SummaryWriter
  import opened FixProbe
  import opened ProbeRun

  /** How many of the parses have this result. */
  function Tally(done: seq<Outcome>, result: int): nat {
    if done == [] then 0
    else Tally(done[..|done| - 1], result) + if done[|done| - 1].result == result then 1 else 0
  }

  lemma {:induction false} TallyAppend(a: seq<Outcome>, b: seq<Outcome>, result: int)
    ensures Tally(a + b, result) == Tally(a, result) + Tally(b, result)
  {
    if b == [] {
      assert a + b == a;
    } else {
      TallyAppend(a, b[..|b| - 1], result);
      assert (a + b)[..|a + b| - 1] == a + b[..|b| - 1];
    }
  }

  function OutcomesIn(log: seq<Tagged>): (r: seq<Outcome>)
    ensures |r| == |log|
  {
    seq(|log|, i requires 0 <= i < |log| => log[i].entry.outcome)
  }

  lemma OutcomesInAppend(id: StreamId, done: seq<Outcome>, k: Packet, log: seq<Tagged>)
    ensures OutcomesIn(Tag(id, Stamp(done, k)) + log) == done + OutcomesIn(log)
  {
  }

  /** No parse that is handed on is too short, and each has one of the other results. */
  predicate Decided(done: seq<Outcome>) {
    forall i :: 0 <= i < |done| ==>
      done[i].result in {OK, ECHECKSUMINVALID, ETAGINVALID, EEMPTYVALUE, EINVALIDTYPE}
  }

  lemma DecidedParse(mem: Text, len: nat)
    ensures var r := ParseIn(mem, len, DEFAULT);
      r.Parsed? ==> r.outcome.result == EMESSAGETOOSHORT || Decided([r.outcome])
  {
    hide ScanNumber, ParseFields, Sum, Supplied, Report, FixType;
    if HEADER_LEN <= len && HEADER_LEN <= |mem| {
      match ScanNumber(Seen(mem, len), HEADER_LEN, SOH, 0)
      case Stopped(n, next) =>
        var m := Seen(mem, next + n + CHECK_SUM_LEN);
        if next <= |m| { FieldResults(m, next); }
      case _ =>
    }
  }

  lemma {:induction false} FieldResults(m: Text, pos: nat)
    requires pos <= |m|
    ensures ParseFields(m, pos).0 in {OK, ETAGINVALID, EEMPTYVALUE}
    decreases |m| - pos
  {
    match ScanNumber(m, pos, EQUALS, 0)
    case Stopped(_, start) =>
      var end := FindSoh(m, start);
      if end + 1 < |m| { FieldResults(m, end + 1); }
    case _ =>
  }

  lemma DecidedRound(w: Text, remaining: nat)
    ensures var r := RoundOf(w, remaining); r.Round? ==> Decided(Completed(r))
  {
    hide ParseIn, NextIn, CopyIn;
    var r := RoundOf(w, remaining);
    if r.Round? { DecidedParse(w, if r.next.None? then remaining else r.next.value); }
  }

  lemma DecidedAfter(a: seq<Outcome>, corrupt: nat, e: Extracted)
    requires Decided(a) && (e.Extracted? ==> Decided(e.done))
    ensures var r := After(a, corrupt, e); r.Extracted? ==> Decided(r.done)
  {
  }

  lemma {:induction false} DecidedMessages(frag: Option<Text>, mem: Text, size: nat, curr: nat, remaining: nat)
    requires curr <= |mem| && 0 < remaining <= size <= |mem|
    ensures var e := Messages(frag, mem, size, curr, remaining); e.Extracted? ==> Decided(e.done)
    decreases remaining
  {
    hide RoundOf, Decided, After, Kept, Completed, Tail;
    var r := RoundOf(mem[curr..], remaining);
    if r.Round? {
      DecidedRound(mem[curr..], remaining);
      var left, kept := remaining - r.outcome.consumed, Kept(frag, r);
      if r.next.Some? {
        DecidedMessages(kept, mem, size, curr + r.next.value, left);
        DecidedAfter(Completed(r), 0, Messages(kept, mem, size, curr + r.next.value, left));
      } else {
        DecidedTail(kept, mem[..size], left);
        DecidedAfter(Completed(r), 0, Tail(kept, mem[..size], left));
      }
    }
  }

  lemma DecidedTail(frag: Option<Text>, data: Text, remaining: nat)
    requires remaining <= |data|
    ensures var e := Tail(frag, data, remaining); e.Extracted? ==> Decided(e.done)
  {
    hide StrNCpy;
  }

  lemma DecidedLead(frag: Option<Text>, data: Text, lead: Text)
    ensures var e := Lead(frag, data, lead); e.Extracted? ==> Decided(e.done)
  {
    hide StrNCpy, Parse;
    if frag.Some? {
      var joined := frag.value + StrNCpy(lead);
      assert joined[..|joined|] == joined;
      DecidedParse(joined, |joined|);
      ParseInside(joined, |joined|, DEFAULT);
    }
  }

  /** Every parse that a packet completes is decided. */
  lemma DecidedExtract(frag: Option<Text>, data: Text, beyond: Text)
    ensures var e := Extract(frag, data, beyond); e.Extracted? ==> Decided(e.done)
  {
    hide Messages, Lead, Find, Decided, After;
    match Find(PATTERN, data)
    case None =>
      DecidedLead(frag, data, data);
    case Some(c) =>
      PatternFits(data, c);
      if c == 0 {
        DecidedMessages(frag, data + beyond, |data|, 0, |data|);
      } else {
        DecidedLead(frag, data, data[..c]);
        var l := Lead(frag, data, data[..c]);
        if l.Extracted? {
          DecidedMessages(l.frag, data + beyond, |data|, c, |data| - c);
          DecidedAfter(l.done, l.corrupt, Messages(l.frag, data + beyond, |data|, c, |data| - c));
        }
      }
  }

  /** The counters after these parses and so many corruptions. */
  function Counted(c: Counters, done: seq<Outcome>, corrupt: nat): Counters {
    Counters(
      c.valid + Tally(done, OK),
      c.invalidChecksums + Tally(done, ECHECKSUMINVALID),
      c.parsingErrors + Tally(done, ETAGINVALID) + Tally(done, EEMPTYVALUE) + Tally(done, EINVALIDTYPE),
      c.corrupt + corrupt)
  }

  lemma {:induction false} GiveAllCounts(p: ProbeState, done: seq<Outcome>, sec: nat, nsec: nat)
    requires Decided(done)
    ensures GiveAll(p, done, sec, nsec).counters == Counted(p.counters, done, 0)
  {
    hide DetailsOf, Offer, ProcessedRecord, ShouldProcess;
    if done != [] { GiveAllCounts(p, done[..|done| - 1], sec, nsec); }
  }

  lemma CountedTwice(c: Counters, a: seq<Outcome>, x: nat, b: seq<Outcome>, y: nat)
    ensures Counted(Counted(c, a, x), b, y) == Counted(c, a + b, x + y)
  {
    TallyAppend(a, b, OK);
    TallyAppend(a, b, ECHECKSUMINVALID);
    TallyAppend(a, b, ETAGINVALID);
    TallyAppend(a, b, EEMPTYVALUE);
    TallyAppend(a, b, EINVALIDTYPE);
  }

  /** The corruptions that the packets meet. */
  function CorruptIn(st: Store, arrivals: seq<Arrival>): nat
    decreases arrivals
  {
    if arrivals == [] then 0
    else
      var a := arrivals[0];
      var e := Extract(Lookup(st, a.id), a.packet.data, a.packet.beyond);
      if e.Fault? then 0 else e.corrupt + CorruptIn(Update(st, a.id, e.frag), arrivals[1..])
  }

  /**
   After any run each counter has grown by the number of parses with its results: good messages, wrong sums, and
   the three errors in tags, values and type; and the last by the packets that were counted as corrupt.
   */
  lemma {:induction false} CountersTell(p: ProbeState, arrivals: seq<Arrival>, sides: seq<ConsumerSide>)
    requires |sides| == |arrivals| && RunAll(p.frags, arrivals).AllRan?
    ensures Probed(p, arrivals, sides).Some?
    ensures Probed(p, arrivals, sides).value.counters
      == Counted(p.counters, OutcomesIn(RunAll(p.frags, arrivals).log), CorruptIn(p.frags, arrivals))
    decreases arrivals
  {
    hide Extract, Update, GiveAll, Tag, Stamp, Decided, Counted, OutcomesIn, Tally;
    if arrivals == [] {
      CountedNone(p.counters);
    } else {
      var a, k, rest := arrivals[0], arrivals[0].packet, arrivals[1..];
      var e := Extract(Lookup(p.frags, a.id), k.data, k.beyond);
      var moved := p.(side := sides[0]);
      var p' := Advance(moved, a.id, e.frag, e.done, e.corrupt, k.sec, k.nsec);
      DecidedExtract(Lookup(p.frags, a.id), k.data, k.beyond);
      GiveAllCounts(moved, e.done, k.sec, k.nsec);
      CorruptAdded(p.counters, e.done, e.corrupt);
      CountersTell(p', rest, sides[1..]);
      var log := RunAll(p'.frags, rest).log;
      OutcomesInAppend(a.id, e.done, k, log);
      CountedTwice(p.counters, e.done, e.corrupt, OutcomesIn(log), CorruptIn(p'.frags, rest));
    }
  }

  lemma CountedNone(c: Counters)
    ensures Counted(c, OutcomesIn([]), 0) == c
  {
    assert OutcomesIn([]) == [];
  }

  lemma CorruptAdded(c: Counters, done: seq<Outcome>, corrupt: nat)
    ensures var d := Counted(c, done, 0); d.(corrupt := d.corrupt + corrupt) == Counted(c, done, corrupt)
  {
  }

  // ----- Corruptions, connection by connection

  function OthersOf(id: StreamId, arrivals: seq<Arrival>): seq<Arrival> {
    if arrivals == [] then []
    else (if arrivals[0].id == id then [] else [arrivals[0]]) + OthersOf(id, arrivals[1..])
  }

  /** The first packet of an interleaving. */
  lemma FirstArrival(st: Store, a: Arrival, rest: seq<Arrival>, id: StreamId)
    requires RunAll(st, [a] + rest).AllRan?
    ensures var e := Extract(Lookup(st, a.id), a.packet.data, a.packet.beyond);
      && e.Extracted? && RunAll(Update(st, a.id, e.frag), rest).AllRan?
      && CorruptIn(st, [a] + rest) == e.corrupt + CorruptIn(Update(st, a.id, e.frag), rest)
    ensures PacketsOf(id, [a] + rest) == (if a.id == id then [a.packet] else []) + PacketsOf(id, rest)
    ensures OthersOf(id, [a] + rest) == (if a.id == id then [] else [a]) + OthersOf(id, rest)
  {
    hide Extract, Update, Lookup;
    assert ([a] + rest)[1..] == rest;
  }

  lemma FirstCorrupt(st: Store, a: Arrival, rest: seq<Arrival>)
    requires Extract(Lookup(st, a.id), a.packet.data, a.packet.beyond).Extracted?
    ensures var e := Extract(Lookup(st, a.id), a.packet.data, a.packet.beyond);
      CorruptIn(st, [a] + rest) == e.corrupt + CorruptIn(Update(st, a.id, e.frag), rest)
  {
    hide Extract, Update, Lookup;
    assert ([a] + rest)[1..] == rest;
  }

  lemma CorruptFirst(frag: Option<Text>, k: Packet, rest: seq<Packet>)
    requires Run(frag, [k] + rest).Ran?
    ensures var e := Extract(frag, k.data, k.beyond);
      e.Extracted? && Run(frag, [k] + rest).corrupt == e.corrupt + Run(e.frag, rest).corrupt
  {
    hide Extract;
    assert ([k] + rest)[1..] == rest;
  }

  ghost predicate SameBut(st: Store, st': Store, id: StreamId) {
    forall other :: other != id ==> Lookup(st, other) == Lookup(st', other)
  }

  lemma SameAfter(st: Store, st': Store, id: StreamId, x: StreamId, frag: Option<Text>)
    requires SameBut(st, st', id)
    ensures SameBut(Update(st, x, frag), Update(st', x, frag), id)
    ensures SameBut(Update(st, id, frag), st', id)
    ensures x != id ==> Lookup(st, x) == Lookup(st', x) && Lookup(Update(st, x, frag), id) == Lookup(st, id)
  {
    hide Update, Lookup;
    forall other | other != id
      ensures Lookup(Update(st, x, frag), other) == Lookup(Update(st', x, frag), other)
    {
      if other != x { assert Lookup(st, other) == Lookup(st', other); }
    }
  }

  /** Every corruption is that of one connection, as it would meet it alone. */
  lemma {:induction false} CorruptSplits(st: Store, st': Store, arrivals: seq<Arrival>, id: StreamId)
    requires RunAll(st, arrivals).AllRan? && SameBut(st, st', id)
    ensures Run(Lookup(st, id), PacketsOf(id, arrivals)).Ran?
    ensures CorruptIn(st, arrivals)
      == Run(Lookup(st, id), PacketsOf(id, arrivals)).corrupt + CorruptIn(st', OthersOf(id, arrivals))
    decreases |arrivals|, 0
  {
    Isolation(st, arrivals, id);
    if arrivals != [] { CorruptStep(st, st', arrivals[0], arrivals[1..], id); }
  }

  lemma {:induction false} CorruptStep(st: Store, st': Store, a: Arrival, rest: seq<Arrival>, id: StreamId)
    requires RunAll(st, [a] + rest).AllRan? && SameBut(st, st', id)
    ensures Run(Lookup(st, id), PacketsOf(id, [a] + rest)).Ran?
    ensures CorruptIn(st, [a] + rest)
      == Run(Lookup(st, id), PacketsOf(id, [a] + rest)).corrupt + CorruptIn(st', OthersOf(id, [a] + rest))
    decreases |rest|, 1
  {
    hide Extract, Update, Lookup, Run, RunAll, CorruptIn, PacketsOf, OthersOf, SameBut;
    var e := Extract(Lookup(st, a.id), a.packet.data, a.packet.beyond);
    Isolation(st, [a] + rest, id);
    FirstArrival(st, a, rest, id);
    SameAfter(st, st', id, a.id, e.frag);
    var packets, others := PacketsOf(id, rest), OthersOf(id, rest);
    if a.id == id {
      CorruptFirst(Lookup(st, id), a.packet, packets);
      assert [] + others == others;
      CorruptSplits(Update(st, id, e.frag), st', rest, id);
    } else {
      assert [] + packets == packets;
      FirstCorrupt(st', a, others);
      CorruptSplits(Update(st, a.id, e.frag), Update(st', a.id, e.frag), rest, id);
    }
  }
}
