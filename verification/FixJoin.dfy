/** Packets without a header, and bytes in front of the first: how connections are joined and fragments grow. */
module FixJoin {
  import opened Bytes
  import opened Options
  import opened Horspool
  import opened FixParser
  import opened FixCodec
  import opened FixStream
  import opened FixRuns

  // ----- The loop does not see what stands in front of it

  lemma TailShift(frag: Option<Text>, pre: Text, data: Text, remaining: nat)
    requires remaining <= |data|
    ensures Tail(frag, pre + data, remaining) == Tail(frag, data, remaining)
  {
    hide StrNCpy;
    assert (pre + data)[|pre + data| - remaining..] == data[|data| - remaining..];
  }

  lemma {:induction false} Shift(frag: Option<Text>, pre: Text, mem: Text, size: nat, curr: nat, remaining: nat)
    requires curr <= |mem| && 0 < remaining <= size <= |mem|
    ensures Messages(frag, pre + mem, |pre| + size, |pre| + curr, remaining)
      == Messages(frag, mem, size, curr, remaining)
    decreases remaining
  {
    hide RoundOf, Tail, Kept, Completed, After;
    assert (pre + mem)[|pre| + curr..] == mem[curr..];
    assert (pre + mem)[..|pre| + size] == pre + mem[..size];
    var r := RoundOf(mem[curr..], remaining);
    if r.Round? {
      var left := remaining - r.outcome.consumed;
      if r.next.Some? {
        Shift(Kept(frag, r), pre, mem, size, curr + r.next.value, left);
      } else {
        TailShift(Kept(frag, r), pre, mem[..size], left);
      }
    }
  }

  /** The first header stands behind the lead. */
  predicate Leads(lead: Text, d: Text) {
    lead != [] && Find(PATTERN, lead + d) == Some(|lead|)
  }

  lemma LeadFacts(lead: Text, d: Text)
    requires Leads(lead, d)
    ensures Find(PATTERN, d) == Some(0) && Find(PATTERN, lead) == None && |d| >= |PATTERN|
  {
    hide FindFrom;
    assert (lead + d)[|lead|..] == d;
    MatchInSuffix(lead + d, |lead|, 0);
    PatternFits(d, 0);
    assert (lead + d)[..|lead|] == lead;
    forall q: int ensures !MatchAt(PATTERN, lead, q) {
      MatchInTake(PATTERN, lead + d, |lead|, q);
    }
  }

  lemma BehindLead(frag: Option<Text>, lead: Text, d: Text, beyond: Text)
    requires Leads(lead, d)
    ensures var l := Lead(frag, lead + d, lead);
      Extract(frag, lead + d, beyond)
        == if l.Fault? then Fault else After(l.done, l.corrupt, Extract(l.frag, d, beyond))
  {
    hide Find, Messages, Lead;
    LeadFacts(lead, d);
    var data := lead + d;
    PatternFits(data, |lead|);
    assert data[..|lead|] == lead && data + beyond == lead + (d + beyond);
    var l := Lead(frag, data, lead);
    if l.Extracted? { Shift(l.frag, lead, d + beyond, |d|, 0, |d|); }
  }

  /** With a fragment stored, a packet is as good as two that are cut in front of its first header. */
  lemma CutAtHeader(f: Text, lead: Text, d: Text, beyond: Text)
    requires Leads(lead, d)
    ensures var e := Extract(Some(f), lead, []);
      Extract(Some(f), lead + d, beyond)
        == if e.Fault? then Fault else After(e.done, e.corrupt, Extract(e.frag, d, beyond))
  {
    hide Find, Parse, StrNCpy, Messages;
    LeadFacts(lead, d);
    BehindLead(Some(f), lead, d, beyond);
  }

  /** Without one, the bytes in front of the first header are lost, and counted as one corruption. */
  lemma LeadIsLost(lead: Text, d: Text, beyond: Text)
    requires Leads(lead, d)
    ensures Extract(None, lead + d, beyond) == After([], 1, Extract(None, d, beyond))
  {
    hide Find, StrNCpy, Messages;
    LeadFacts(lead, d);
    BehindLead(None, lead, d, beyond);
  }

  // ----- Packets without a header

  predicate Headerless(packets: seq<Packet>) {
    forall i :: 0 <= i < |packets| ==> Find(PATTERN, packets[i].data) == None
  }

  /** The bytes of all packets as strncpy copies them, packet by packet. */
  function Copied(packets: seq<Packet>): Text {
    if packets == [] then [] else StrNCpy(packets[0].data) + Copied(packets[1..])
  }

  /** The same run, with so many corruptions more. */
  function Corrupted(n: nat, r: Ran): Ran {
    match r
    case Broken => Broken
    case Ran(frag, log, corrupt) => Ran(frag, log, n + corrupt)
  }

  lemma RunFirst(frag: Option<Text>, p: Packet, rest: seq<Packet>)
    ensures var e := Extract(frag, p.data, p.beyond);
      Run(frag, [p] + rest) == if e.Fault? then Broken else Before(e.done, p, e.corrupt, Run(e.frag, rest))
  {
    hide Extract;
    assert ([p] + rest)[1..] == rest;
  }

  lemma BeforeNothing(p: Packet, corrupt: nat, r: Ran)
    ensures Before([], p, corrupt, r) == Corrupted(corrupt, r)
  {
    if r.Ran? { assert Stamp([], p) + r.log == r.log; }
  }

  /** A packet of eight bytes or more without a header, where nothing is stored: it is dropped and counted. */
  lemma DropsUnknown(data: Text, beyond: Text)
    requires Find(PATTERN, data) == None && |data| >= |PATTERN|
    ensures Extract(None, data, beyond) == Extracted(None, [], 1)
  {
    hide Find;
  }

  /**
   Joining late: where nothing is stored, packets of eight bytes or more without a header change nothing but the
   count of corruptions, whatever comes after them.
   */
  lemma {:induction false} Joins(ps: seq<Packet>, qs: seq<Packet>)
    requires Headerless(ps) && forall i :: 0 <= i < |ps| ==> |ps[i].data| >= |PATTERN|
    ensures Run(None, ps + qs) == Corrupted(|ps|, Run(None, qs))
    decreases |ps|
  {
    hide Extract, Find, Run;
    if ps == [] {
      assert ps + qs == qs;
    } else {
      var p, rest := ps[0], ps[1..];
      assert ps + qs == [p] + (rest + qs);
      DropsUnknown(p.data, p.beyond);
      RunFirst(None, p, rest + qs);
      BeforeNothing(p, 1, Run(None, rest + qs));
      Joins(rest, qs);
    }
  }

  /** The same with a first packet whose header stands behind other bytes. */
  lemma JoinsBehind(ps: seq<Packet>, lead: Text, q: Packet, qs: seq<Packet>)
    requires Headerless(ps) && forall i :: 0 <= i < |ps| ==> |ps[i].data| >= |PATTERN|
    requires Leads(lead, q.data)
    ensures Run(None, ps + ([q.(data := lead + q.data)] + qs)) == Corrupted(|ps| + 1, Run(None, [q] + qs))
  {
    hide Extract, Find, Run, Leads;
    var first := q.(data := lead + q.data);
    Joins(ps, [first] + qs);
    LeadIsLost(lead, q.data, q.beyond);
    RunFirst(None, first, qs);
    RunFirst(None, q, qs);
    var e := Extract(None, q.data, q.beyond);
    if e.Extracted? {
      assert [] + e.done == e.done;
      SameStamp(e.done, q, first);
    }
  }

  lemma SameStamp(done: seq<Outcome>, p: Packet, p': Packet)
    requires p.sec == p'.sec && p.nsec == p'.nsec
    ensures Stamp(done, p) == Stamp(done, p')
  {
  }

  /**
   A probe that joins a connection in the middle of its traffic: after any packets without a header, and with
   other bytes in front of the first one, it delivers the clean stream that begins there as if it had been there
   from the start.
   */
  lemma JoinsLate(ms: seq<Text>, ps: seq<Packet>, lead: Text, q: Packet, qs: seq<Packet>)
    requires Headerless(ps) && forall i :: 0 <= i < |ps| ==> |ps[i].data| >= |PATTERN|
    requires OnStream(ms, [], [q] + qs) && NoLoss(ms, [], [q] + qs) && (lead != [] ==> Leads(lead, q.data))
    ensures var c := Split(ms, AllData([q] + qs));
      var r := Run(None, ps + ([q.(data := lead + q.data)] + qs));
      && r.Ran? && r.frag == Pending(c.rest) && OutcomesOf(r.log) == Outcomes(ms[..c.count])
      && r.corrupt == |ps| + (if lead == [] then 0 else 1)
  {
    hide Run, OnStream, NoLoss, Split, AllData, Outcomes, OutcomesOf, Leads, Find;
    Segmentation(ms, [q] + qs);
    if lead == [] {
      assert q.(data := lead + q.data) == q by { assert lead + q.data == q.data; }
      Joins(ps, [q] + qs);
    } else {
      JoinsBehind(ps, lead, q, qs);
    }
  }

  // ----- How fragments grow

  /** The bytes at hand after a fragment f and the copies of packets. */
  function Joined(f: Text, packets: seq<Packet>): Text {
    f + Copied(packets)
  }

  lemma OneMore(f: Text, p: Packet, beyond: Text)
    requires Find(PATTERN, p.data) == None && |f| + |p.data| < CAPACITY
    ensures var t := f + StrNCpy(p.data);
      var o := Parse(t, DEFAULT);
      Extract(Some(f), p.data, beyond)
        == if o.result == EMESSAGETOOSHORT then Extracted(Some(t), [], 0) else Extracted(None, [o], 0)
  {
    hide Find, Parse, StrNCpy;
  }

  lemma NoRoom(f: Text, p: Packet, beyond: Text)
    requires Find(PATTERN, p.data) == None && |f| + |p.data| >= CAPACITY
    ensures Extract(Some(f), p.data, beyond) == Extracted(Some(f), [], 0)
  {
    hide Find, Parse, StrNCpy;
  }

  lemma FirstBytes(p: Packet, beyond: Text)
    requires Find(PATTERN, p.data) == None && |p.data| < |PATTERN|
    ensures Extract(None, p.data, beyond) == Extracted(Some(StrNCpy(p.data)), [], 0)
  {
    hide Find, StrNCpy;
  }

  /** The bytes fit a fragment and are too short for a message. */
  predicate Small(t: Text) {
    |t| < CAPACITY && Parse(t, DEFAULT).result == EMESSAGETOOSHORT
  }

  /** After every packet the bytes at hand are small. */
  ghost predicate Grows(f: Text, packets: seq<Packet>) {
    forall k :: 0 < k <= |packets| ==> Small(Joined(f, packets[..k]))
  }

  lemma CopiedCons(f: Text, p: Packet, rest: seq<Packet>)
    ensures Joined(f, [p] + rest) == Joined(f + StrNCpy(p.data), rest)
  {
    assert ([p] + rest)[1..] == rest;
    assert f + (StrNCpy(p.data) + Copied(rest)) == f + StrNCpy(p.data) + Copied(rest);
  }

  lemma GrowsFirst(f: Text, p: Packet, rest: seq<Packet>)
    requires Grows(f, [p] + rest)
    ensures var t := f + StrNCpy(p.data); Small(t) && Grows(t, rest)
  {
    hide Small, StrNCpy, Joined;
    var t, all := f + StrNCpy(p.data), [p] + rest;
    assert all[..1] == [p] + [];
    CopiedCons(f, p, []);
    JoinedNone(t);
    forall k | 0 < k <= |rest| ensures Small(Joined(t, rest[..k])) {
      assert all[..k + 1] == [p] + rest[..k];
      CopiedCons(f, p, rest[..k]);
    }
  }

  lemma JoinedNone(f: Text)
    ensures Joined(f, []) == f
  {
  }

  /** Packets without a header join the fragment, byte by byte as strncpy copies them, while it is too short. */
  lemma {:induction false} StaysShort(f: Text, ps: seq<Packet>, qs: seq<Packet>)
    requires Headerless(ps) && Grows(f, ps)
    ensures Run(Some(f), ps + qs) == Run(Some(Joined(f, ps)), qs)
    decreases |ps|
  {
    hide Extract, Find, Run, StrNCpy, Parse, Grows, Joined;
    if ps == [] {
      assert ps + qs == qs;
      JoinedNone(f);
    } else {
      var p, rest := ps[0], ps[1..];
      assert ps == [p] + rest && ps + qs == [p] + (rest + qs);
      GrowsFirst(f, p, rest);
      OneMore(f, p, p.beyond);
      RunFirst(Some(f), p, rest + qs);
      CopiedCons(f, p, rest);
      var t := f + StrNCpy(p.data);
      BeforeNothing(p, 0, Run(Some(t), rest + qs));
      CorruptedNone(Run(Some(t), rest + qs));
      StaysShort(t, rest, qs);
    }
  }

  lemma CorruptedNone(r: Ran)
    ensures Corrupted(0, r) == r
  {
  }

  /**
   The life of a fragment: packets without a header are joined to it until the bytes at hand are no longer too
   short. Then they are parsed once, whatever the result, the parse bears the stamp of the packet that completed
   it, and the fragment is gone.
   */
  lemma FragmentLife(f: Text, ps: seq<Packet>, p: Packet, qs: seq<Packet>)
    requires Headerless(ps + [p]) && Grows(f, ps)
    requires |Joined(f, ps)| + |p.data| < CAPACITY
    requires Parse(Joined(f, ps + [p]), DEFAULT).result != EMESSAGETOOSHORT
    ensures Run(Some(f), ps + ([p] + qs)) == Before([Parse(Joined(f, ps + [p]), DEFAULT)], p, 0, Run(None, qs))
  {
    hide Extract, Find, Run, StrNCpy, Parse, Grows, Joined;
    assert Headerless(ps) by { assert forall i :: 0 <= i < |ps| ==> ps[i] == (ps + [p])[i]; }
    assert Find(PATTERN, p.data) == None by { assert (ps + [p])[|ps|] == p; }
    StaysShort(f, ps, [p] + qs);
    var t := Joined(f, ps);
    OneMore(t, p, p.beyond);
    RunFirst(Some(t), p, qs);
    JoinedSnoc(f, ps, p);
  }

  lemma {:induction false} JoinedSnoc(f: Text, ps: seq<Packet>, p: Packet)
    ensures Joined(f, ps + [p]) == Joined(f, ps) + StrNCpy(p.data)
    decreases |ps|
  {
    hide StrNCpy, Joined;
    if ps == [] {
      assert ps + [p] == [p] + [];
      CopiedCons(f, p, []);
      JoinedNone(f);
      JoinedNone(f + StrNCpy(p.data));
    } else {
      var x, rest := ps[0], ps[1..];
      assert ps == [x] + rest && ps + [p] == [x] + (rest + [p]);
      CopiedCons(f, x, rest);
      CopiedCons(f, x, rest + [p]);
      JoinedSnoc(f + StrNCpy(x.data), rest, p);
    }
  }

  /** Where a fragment would outgrow its 4088 bytes, packets without a header are dropped, and it stays as it is. */
  lemma {:induction false} Outgrown(f: Text, ps: seq<Packet>, qs: seq<Packet>)
    requires Headerless(ps) && forall i :: 0 <= i < |ps| ==> |f| + |ps[i].data| >= 4088
    ensures Run(Some(f), ps + qs) == Run(Some(f), qs)
    decreases |ps|
  {
    hide Extract, Find, Run;
    if ps == [] {
      assert ps + qs == qs;
    } else {
      var p, rest := ps[0], ps[1..];
      assert ps + qs == [p] + (rest + qs);
      NoRoom(f, p, p.beyond);
      RunFirst(Some(f), p, rest + qs);
      BeforeNothing(p, 0, Run(Some(f), rest + qs));
      CorruptedNone(Run(Some(f), rest + qs));
      Outgrown(f, rest, qs);
    }
  }

  /** A first packet of less than eight bytes is stored. */
  lemma BeginsShort(p: Packet, qs: seq<Packet>)
    requires |p.data| < |PATTERN|
    ensures Run(None, [p] + qs) == Run(Some(StrNCpy(p.data)), qs)
  {
    hide Extract, FindFrom, Run, StrNCpy;
    var r := Find(PATTERN, p.data);
    if r.Some? { PatternFits(p.data, r.value); }
    FirstBytes(p, p.beyond);
    RunFirst(None, p, qs);
    BeforeNothing(p, 0, Run(Some(StrNCpy(p.data)), qs));
    CorruptedNone(Run(Some(StrNCpy(p.data)), qs));
  }
}
