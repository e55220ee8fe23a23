/** vmars_extract_fix_messages as it runs: searcher, parser, fragment table and ring, updated packet by packet. */
module FixProbe {
  import opened Bytes
  import opened Options
  import opened Horspool
  import opened FixParser
  import opened FixDetails
  import opened FixStream
  import opened FixRuns
  import opened SpscRing
  import opened SpscRingBuffer
  import opened SummaryWriter
  import opened FragmentStore
  import opened KHash

  /** The parse counters. */
  datatype Counters = Counters(valid: nat, invalidChecksums: nat, parsingErrors: nat, corrupt: nat)

  function CountOne(c: Counters, o: Outcome): Counters {
    if o.result == OK then c.(valid := c.valid + 1)
    else if o.result == EMESSAGETOOSHORT then c
    else if o.result == ECHECKSUMINVALID then c.(invalidChecksums := c.invalidChecksums + 1)
    else c.(parsingErrors := c.parsingErrors + 1)
  }

  /** The probe's state: stored fragments, counters, and the two sides of its ring. */
  datatype ProbeState = ProbeState(frags: Store, counters: Counters, out: Output, side: ConsumerSide, cap: nat)

  /** A completed parse: counted, and its record offered to the ring if it takes part. */
  function Give(p: ProbeState, o: Outcome, sec: nat, nsec: nat): ProbeState {
    var d := DetailsOf(o.fields);
    p.(counters := CountOne(p.counters, o),
       out :=
         if o.result == OK && ShouldProcess(d) then Offer(p.out, ProcessedRecord(d, sec, nsec), p.side.head, p.cap)
         else p.out)
  }

  /** Several completed parses, in order. */
  function GiveAll(p: ProbeState, done: seq<Outcome>, sec: nat, nsec: nat): (q: ProbeState)
    ensures q.frags == p.frags && q.side == p.side && q.cap == p.cap
  {
    if done == [] then p else Give(GiveAll(p, done[..|done| - 1], sec, nsec), done[|done| - 1], sec, nsec)
  }

  /** The state after a packet, or a part of one: connection id now has `frag`, and the parses `done` were completed. */
  function Advance(p: ProbeState, id: StreamId, frag: Option<Text>, done: seq<Outcome>, corrupt: nat, sec: nat,
      nsec: nat): (q: ProbeState)
    ensures Lookup(q.frags, id) == frag
  {
    var q := GiveAll(p, done, sec, nsec);
    q.(frags := Update(p.frags, id, frag), counters := q.counters.(corrupt := q.counters.corrupt + corrupt))
  }

  lemma UpdateFacts(st: Store, id: StreamId, a: Option<Text>, b: Option<Text>)
    ensures Update(Update(st, id, a), id, b) == Update(st, id, b)
    ensures Update(st, id, Lookup(st, id)) == st
    ensures b.Some? ==> Update(st, id, b) == st[id := b.value]
    ensures b.None? ==> Update(st, id, b) == st - {id}
  {
  }

  lemma AdvanceNothing(p: ProbeState, id: StreamId, sec: nat, nsec: nat)
    ensures Advance(p, id, Lookup(p.frags, id), [], 0, sec, nsec) == p
  {
    UpdateFacts(p.frags, id, None, None);
  }

  lemma AdvanceOne(p: ProbeState, id: StreamId, o: Outcome, sec: nat, nsec: nat)
    ensures Advance(p, id, Lookup(p.frags, id), [o], 0, sec, nsec) == Give(p, o, sec, nsec)
  {
    UpdateFacts(p.frags, id, None, None);
    assert [o][..0] == [];
    assert GiveAll(p, [o], sec, nsec) == Give(GiveAll(p, [], sec, nsec), o, sec, nsec);
  }

  lemma GiveCorrupt(p: ProbeState, o: Outcome, sec: nat, nsec: nat, frags: Store, c: nat)
    ensures Give(p.(frags := frags, counters := p.counters.(corrupt := p.counters.corrupt + c)), o, sec, nsec)
      == var q := Give(p, o, sec, nsec); q.(frags := frags, counters := q.counters.(corrupt := q.counters.corrupt + c))
  {
    hide DetailsOf, ProcessedRecord, Offer;
  }

  lemma {:induction false} GiveAllLater(p: ProbeState, done: seq<Outcome>, sec: nat, nsec: nat, frags: Store, c: nat)
    ensures GiveAll(p.(frags := frags, counters := p.counters.(corrupt := p.counters.corrupt + c)), done, sec, nsec)
      == var q := GiveAll(p, done, sec, nsec);
         q.(frags := frags, counters := q.counters.(corrupt := q.counters.corrupt + c))
  {
    hide Give;
    if done != [] {
      GiveAllLater(p, done[..|done| - 1], sec, nsec, frags, c);
      GiveCorrupt(GiveAll(p, done[..|done| - 1], sec, nsec), done[|done| - 1], sec, nsec, frags, c);
    }
  }

  lemma {:induction false} GiveAppend(p: ProbeState, a: seq<Outcome>, b: seq<Outcome>, sec: nat, nsec: nat)
    ensures GiveAll(GiveAll(p, a, sec, nsec), b, sec, nsec) == GiveAll(p, a + b, sec, nsec)
  {
    hide Give;
    if b == [] {
      assert a + b == a;
    } else {
      var rest := b[..|b| - 1];
      GiveAppend(p, a, rest, sec, nsec);
      assert (a + b)[..|a + b| - 1] == a + rest;
    }
  }

  /** Two advances of the same connection are one. */
  lemma AdvanceTwice(p: ProbeState, id: StreamId, f: Option<Text>, a: seq<Outcome>, c: nat, g: Option<Text>,
      b: seq<Outcome>, e: nat, sec: nat, nsec: nat)
    ensures Advance(Advance(p, id, f, a, c, sec, nsec), id, g, b, e, sec, nsec)
      == Advance(p, id, g, a + b, c + e, sec, nsec)
  {
    hide GiveAll, Update;
    UpdateFacts(p.frags, id, f, g);
    GiveAllLater(GiveAll(p, a, sec, nsec), b, sec, nsec, Update(p.frags, id, f), c);
    GiveAppend(p, a, b, sec, nsec);
  }

  // ----- One round of the message loop of FixStream

  /** One round, seen from the whole of the loop: what is still to come after what is done. */
  lemma RoundInLoop(frag: Option<Text>, mem: Text, size: nat, curr: nat, remaining: nat, done: seq<Outcome>,
    target: Extracted)
    requires curr <= |mem| && 0 < remaining <= size <= |mem|
    requires target == After(done, 0, Messages(frag, mem, size, curr, remaining))
    ensures match RoundOf(mem[curr..], remaining)
      case Stuck => target == Fault
      case Round(next, o, stored) =>
        var r := Round(next, o, stored);
        && o.consumed <= remaining
        && match next
           case Some(n) =>
             && curr + n <= |mem| && 0 < remaining - o.consumed
             && target ==
               After(done + Completed(r), 0, Messages(Kept(frag, r), mem, size, curr + n, remaining - o.consumed))
           case None => target == After(done + Completed(r), 0, Tail(Kept(frag, r), mem[..size],
             remaining - o.consumed))
  {
    hide RoundOf, Tail, Kept, Completed;
    var r := RoundOf(mem[curr..], remaining);
    if r.Round? {
      hide Messages;
      LoopStep(frag, mem, size, curr, remaining, r);
      var left := remaining - r.outcome.consumed;
      match r.next
      case Some(n) => AfterTwice(done, Completed(r), Messages(Kept(frag, r), mem, size, curr + n, left));
      case None => AfterTwice(done, Completed(r), Tail(Kept(frag, r), mem[..size], left));
    }
  }

  class CaptureContext {
    const matcher: Matcher
    const fragments: FragmentStore
    const ring: RingBuffer
    var counters: Counters

    ghost predicate Separate()
      reads this, fragments, fragments.table
    {
      && ring !in fragments.table.Repr() && ring.buffer !in fragments.table.Repr()
      && matcher.badMatch !in fragments.table.Repr() && this !in fragments.table.Repr()
      && matcher.badMatch as object != ring.buffer
    }

    ghost predicate Valid()
      reads this, matcher.badMatch, fragments, fragments.table, fragments.table.Repr(), ring, ring.buffer
    {
      && Separate()
      && matcher.Valid() && matcher.pattern == PATTERN && matcher.len == |PATTERN|
      && fragments.Valid()
      && ring.Valid() && ring.producer.Idle?
    }

    ghost function State(): ProbeState
      reads this, fragments, fragments.table, fragments.table.Repr(), ring
    {
      ProbeState(fragments.Fragments(), counters, OutputOf(ring), SideOf(ring), ring.capacity)
    }

    constructor (matcher: Matcher, ring: RingBuffer, hash: StreamId -> nat)
      requires matcher.Valid() && matcher.pattern == PATTERN && matcher.badMatch as object != ring.buffer
      requires ring.Valid() && ring.producer.Idle?
      ensures Valid() && this.ring == ring && this.matcher == matcher && fresh(fragments)
          && fresh(fragments.table.Repr())
      ensures State() == ProbeState(map[], Counters(0, 0, 0, 0), OutputOf(ring), SideOf(ring), ring.capacity)
    {
      this.matcher, this.ring := matcher, ring;
      counters := Counters(0, 0, 0, 0);
      fragments := new FragmentStore(hash);
    }

    /** What an operation on one connection leaves as it is, and room for that connection's fragment afterwards. */
    twostate predicate Keeps(id: StreamId)
      reads this, fragments, fragments.table, fragments.table.Repr(), ring, ring.buffer, matcher.badMatch
    {
      && Valid()
      && (forall o :: o in fragments.table.Repr() ==> o in old(fragments.table.Repr()) || fresh(o))
      && fragments.Roomy(id) && fragments.Others(id) == old(fragments.Others(id))
    }

    /** try_parse_fix_message: the parse, with handle_tag called for each tag in turn. */
    method TryParse(mem: Text, len: nat) returns (r: Parsed, details: FixDetails)
      modifies this`counters
      ensures r == ParseIn(mem, len, DEFAULT) && fresh(details)
      ensures r.ReadPast? ==> counters == old(counters)
      ensures r.Parsed? ==>
        details.Value() == DetailsOf(r.outcome.fields) && counters == CountOne(old(counters), r.outcome)
    {
      hide Handle, ParseIn, CountOne;
      r := FixParseMsg(mem, len, DEFAULT);
      details := new FixDetails();
      if r.ReadPast? {
        return;
      }
      var fields := r.outcome.fields;
      assert fields[..0] == [];
      for i := 0 to |fields|
        invariant details.Value() == DetailsOf(fields[..i])
        invariant fresh(details) && counters == old(counters)
      {
        assert fields[..i + 1][..i] == fields[..i];
        details.HandleTag(fields[i].tag, fields[i].value);
      }
      assert fields[..|fields|] == fields;
      counters := CountOne(counters, r.outcome);
    }

    /** A parse, and the summary it leads to. */
    method Attempt(mem: Text, len: nat, sec: nat, nsec: nat) returns (r: Parsed)
      requires Valid()
      modifies this`counters, ring, ring.buffer
      ensures Valid()
      ensures r == ParseIn(mem, len, DEFAULT)
      ensures State() == if r.Parsed? then Give(old(State()), r.outcome, sec, nsec) else old(State())
    {
      hide ParseIn, DetailsOf, ProcessedRecord, Inv;
      var details;
      r, details := TryParse(mem, len);
      if r.Parsed? && r.outcome.result == OK {
        ProcessForLatencyMeasurement(ring, details.Value(), sec, nsec);
      }
    }

    /** The first header of a packet. */
    method FirstHeader(data: Text) returns (current: Option<nat>)
      requires Valid()
      ensures current == Find(PATTERN, data)
    {
      hide Find;
      assert data[..|data|] == data;
      var sought := matcher.Search(data, |data|);
      current := sought.at;
    }

    /** The next header after the one at the start of w, as the loop looks for it. */
    method SearchNext(w: Text, bufRemaining: nat) returns (next: Sought)
      requires Valid()
      ensures next == NextIn(w, bufRemaining)
    {
      hide SearchIn;
      next := Sought(None);
      if bufRemaining > matcher.len {
        next := matcher.Search(Behind(w), bufRemaining - matcher.len);
        if next.Sought? && next.at.Some? {
          next := Sought(Some(matcher.len + next.at.value));
        }
      }
    }

    /** One round of the message loop; w is the memory from the current header on. */
    method MessageRound(id: StreamId, sec: nat, nsec: nat, w: Text, bufRemaining: nat) returns (r: Round)
      requires Valid() && fragments.Roomy(id)
      modifies this`counters, ring, ring.buffer, fragments.table.Repr()
      ensures Keeps(id)
      ensures r == RoundOf(w, bufRemaining)
      ensures r.Round? ==>
        State() == Advance(old(State()), id, Kept(old(Lookup(fragments.Fragments(), id)), r), Completed(r), 0, sec,
          nsec)
    {
      hide ParseIn, StrNCpy, NextIn, CopyIn, Inv, Give, GiveAll, Update, StoreOf, NoNull, Advance, Placed, NonEmpty,
        Meaning, GoodShift, Valid;
      ghost var p := State();
      var sought := SearchNext(w, bufRemaining);
      if sought.Past? {
        return Stuck;
      }
      var next := sought.at;
      var messageLen := if next.None? then bufRemaining else next.value;
      var parsed := Attempt(w, messageLen, sec, nsec);
      if parsed.ReadPast? {
        return Stuck;
      }
      var o := parsed.outcome;
      if o.result != EMESSAGETOOSHORT {
        AdvanceOne(p, id, o, sec, nsec);
        return Round(next, o, None);
      }
      var stored := KeepWindow(id, w, messageLen);
      if stored.None? {
        return Stuck;
      }
      TooShortGivesNothing(p, id, o, sec, nsec, stored.value);
      return Round(next, o, stored);
    }

    /** put_fragment of a message that is too short; None if the copy would leave the memory or the fragment. */
    method KeepWindow(id: StreamId, w: Text, messageLen: nat) returns (stored: Option<Text>)
      requires Valid() && fragments.Roomy(id)
      modifies fragments.table.Repr()
      ensures Keeps(id)
      ensures stored == if messageLen > CAPACITY then None else CopyIn(w, messageLen)
      ensures var p := old(State()); State() == if stored.None? then p else p.(frags := p.frags[id := stored.value])
    {
      hide StrNCpy, Inv, Update, StoreOf, NoNull, Placed, NonEmpty, Meaning, GoodShift;
      if messageLen > CAPACITY || (messageLen > |w| && NUL !in w) {
        return None;
      }
      var source := if messageLen <= |w| then w[..messageLen] else w + Zeros(messageLen - |w|);
      fragments.PutFragment(id, source);
      return Some(StrNCpy(source));
    }

    /** The message loop of vmars_extract_fix_messages, from a header at `first`; false on a fault. */
    method ExtractMessages(id: StreamId, sec: nat, nsec: nat, mem: Text, size: nat, first: nat) returns (ok: bool)
      requires Valid() && fragments.Roomy(id) && first < size <= |mem|
      modifies this`counters, ring, ring.buffer, fragments.table.Repr()
      ensures Keeps(id)
      ensures var e := Messages(old(Lookup(fragments.Fragments(), id)), mem, size, first, size - first);
        && (ok <==> e.Extracted?)
        && (ok ==> State() == Advance(old(State()), id, e.frag, e.done, e.corrupt, sec, nsec))
    {
      hide StrNCpy, Messages, Valid, Advance, Kept, Update, StoreOf, RoundOf, Completed, Tail, After, Placed, NonEmpty,
        Meaning;
      ghost var p := State();
      ghost var target := Messages(Lookup(p.frags, id), mem, size, first, size - first);
      ghost var done: seq<Outcome> := [];
      var current: Option<nat> := Some(first);
      var bufRemaining: nat := size - first;
      AfterNothing(target);
      AdvanceNothing(p, id, sec, nsec);
      while current.Some?
        invariant Keeps(id)
        invariant State() == Advance(p, id, Lookup(fragments.Fragments(), id), done, 0, sec, nsec)
        invariant bufRemaining <= size
        invariant current.Some? ==> (
          && current.value <= |mem| && 0 < bufRemaining
          && target ==
            After(done, 0, Messages(Lookup(fragments.Fragments(), id), mem, size, current.value, bufRemaining)))
        invariant current.None? ==>
          target == After(done, 0, Tail(Lookup(fragments.Fragments(), id), mem[..size], bufRemaining))
        decreases if current.Some? then 1 + bufRemaining else 0
      {
        ghost var frag, s := Lookup(fragments.Fragments(), id), State();
        RoundInLoop(frag, mem, size, current.value, bufRemaining, done, target);
        var r := MessageRound(id, sec, nsec, mem[current.value..], bufRemaining);
        if r.Stuck? {
          return false;
        }
        AdvanceTwice(p, id, frag, done, 0, Kept(frag, r), Completed(r), 0, sec, nsec);
        assert Advance(s, id, Kept(frag, r), Completed(r), 0, sec, nsec)
          == Advance(p, id, Kept(frag, r), done + Completed(r), 0, sec, nsec);
        done := done + Completed(r);
        bufRemaining := bufRemaining - r.outcome.consumed;
        current := if r.next.Some? then Some(current.value + r.next.value) else None;
      }
      ok := StoreTail(id, sec, nsec, mem[..size], bufRemaining, done, p);
    }

    /** The end of vmars_extract_fix_messages: whatever the loop left over becomes the fragment. */
    method StoreTail(id: StreamId, sec: nat, nsec: nat, data: Text, bufRemaining: nat, ghost done: seq<Outcome>,
        ghost p: ProbeState)
      returns (ok: bool)
      requires Valid() && fragments.Roomy(id) && bufRemaining <= |data|
      requires State() == Advance(p, id, Lookup(fragments.Fragments(), id), done, 0, sec, nsec)
      modifies fragments.table.Repr()
      ensures Keeps(id)
      ensures var e := After(done, 0, Tail(old(Lookup(fragments.Fragments(), id)), data, bufRemaining));
        && (ok <==> e.Extracted?)
        && (ok ==> State() == Advance(p, id, e.frag, e.done, e.corrupt, sec, nsec))
    {
      hide StrNCpy, Inv, Advance, Update, StoreOf, NoNull, Tail, After, Placed, NonEmpty, Meaning, GoodShift;
      ghost var frag := Lookup(fragments.Fragments(), id);
      TailDone(frag, data, bufRemaining, done);
      if bufRemaining > 0 {
        if bufRemaining > CAPACITY {
          return false;
        }
        ghost var rest := StrNCpy(data[|data| - bufRemaining..]);
        ghost var s := State();
        AdvanceStore(s, id, rest, sec, nsec);
        AdvanceTwice(p, id, frag, done, 0, Some(rest), [], 0, sec, nsec);
        assert done + [] == done;
        assert Advance(p, id, Some(rest), done, 0, sec, nsec) == s.(frags := s.frags[id := rest]);
        fragments.PutFragment(id, data[|data| - bufRemaining..]);
        assert State() == s.(frags := s.frags[id := rest]);
      }
      return true;
    }

    /** The bytes before the first header of a packet: they start or continue a fragment, or are counted as corrupt. */
    method ExtractLead(id: StreamId, sec: nat, nsec: nat, data: Text, lead: Text)
      requires Valid() && fragments.Roomy(id)
      modifies this`counters, ring, ring.buffer, fragments.table.Repr()
      ensures Keeps(id)
      ensures var e := Lead(old(Lookup(fragments.Fragments(), id)), data, lead);
        e.Extracted? && State() == Advance(old(State()), id, e.frag, e.done, e.corrupt, sec, nsec)
    {
      hide Parse, StrNCpy, Find, Inv, Give, GiveAll, Update, StoreOf, NoNull, Advance, Placed, NonEmpty, Meaning,
        GoodShift;
      ghost var p := State();
      var fragment := fragments.GetFragment(id);
      AdvanceNothing(p, id, sec, nsec);
      match fragment {
        case None =>
          if |data| < matcher.len {
            AdvanceStore(p, id, StrNCpy(data), sec, nsec);
            fragments.PutFragment(id, data);
            assert State() == p.(frags := p.frags[id := StrNCpy(data)]);
          } else {
            AdvanceCorrupt(p, id, sec, nsec);
            counters := counters.(corrupt := counters.corrupt + 1);
          }
        case Some(f) =>
          if |f| + |lead| < CAPACITY {
            Extend(id, sec, nsec, f, lead);
          }
      }
    }

    /** The lead of a packet behind a stored fragment, and the attempt to parse the two together. */
    method Extend(id: StreamId, sec: nat, nsec: nat, f: Text, lead: Text)
      requires Valid() && fragments.Roomy(id)
      requires Lookup(fragments.Fragments(), id) == Some(f) && |f| + |lead| < CAPACITY
      modifies this`counters, ring, ring.buffer, fragments.table.Repr()
      ensures Keeps(id)
      ensures var joined := f + StrNCpy(lead);
        var o := Parse(joined, DEFAULT);
        State() == if o.result == EMESSAGETOOSHORT then Advance(old(State()), id, Some(joined), [], 0, sec, nsec)
                   else Advance(old(State()), id, None, [o], 0, sec, nsec)
    {
      hide Parse, ParseIn, StrNCpy, Find, Inv, Give, StoreOf, NoNull, Advance, Placed, NonEmpty, Meaning,
        GoodShift, Valid;
      ghost var p := State();
      var joined := f + StrNCpy(lead);
      GrowFragment(id, f, lead);
      ParseInside(joined, |joined|, DEFAULT);
      assert joined[..|joined|] == joined;
      var parsed := Attempt(joined, |joined|, sec, nsec);
      var o := parsed.outcome;
      AdvanceExtend(p, id, joined, o, sec, nsec);
      if o.result != EMESSAGETOOSHORT {
        DropFragment(id);
      }
    }

    /** The copy behind the stored fragment. */
    method GrowFragment(id: StreamId, ghost f: Text, lead: Text)
      requires Valid() && fragments.Roomy(id)
      requires Lookup(fragments.Fragments(), id) == Some(f) && |f| + |lead| < CAPACITY
      modifies fragments.table.Repr()
      ensures Keeps(id)
      ensures State() == old(State()).(frags := old(State()).frags[id := f + StrNCpy(lead)])
    {
      hide StrNCpy, Inv, StoreOf, NoNull, Placed, NonEmpty, Meaning, GoodShift;
      fragments.ExtendFragment(id, lead);
    }

    /** remove_fragment */
    method DropFragment(id: StreamId)
      requires Valid() && fragments.Roomy(id)
      modifies fragments.table.Repr()
      ensures Keeps(id)
      ensures State() == old(State()).(frags := old(State()).frags - {id})
    {
      hide Inv, StoreOf, NoNull, Placed, NonEmpty, Meaning, GoodShift;
      fragments.RemoveFragment(id);
    }

    /** A packet that does not begin with a header: its lead, then the messages from the first header on, if any. */
    method ExtractAfterLead(id: StreamId, sec: nat, nsec: nat, data: Text, beyond: Text, current: Option<nat>)
        returns (ok: bool)
      requires Valid() && fragments.Roomy(id) && current == Find(PATTERN, data) && current != Some(0)
      modifies this`counters, ring, ring.buffer, fragments.table.Repr()
      ensures Keeps(id)
      ensures var e := Extract(old(Lookup(fragments.Fragments(), id)), data, beyond);
        && (ok <==> e.Extracted?)
        && (ok ==> State() == Advance(old(State()), id, e.frag, e.done, e.corrupt, sec, nsec))
    {
      hide Messages, Advance, Update, StoreOf, Find, Lead, Extract, Valid, Placed, NonEmpty, Meaning, NoNull, Inv, Give,
        GiveAll, StrNCpy, MatchAt, GoodShift, Parse;
      ghost var p := State();
      ExtractHalves(Lookup(p.frags, id), data, beyond);
      var fragmentLen := if current.Some? then current.value else |data|;
      ExtractLead(id, sec, nsec, data, data[..fragmentLen]);
      if current.None? {
        return true;
      }
      ghost var e := Lead(Lookup(p.frags, id), data, data[..fragmentLen]);
      ghost var f := Messages(e.frag, data + beyond, |data|, fragmentLen, |data| - fragmentLen);
      if f.Extracted? { AdvanceTwice(p, id, e.frag, e.done, e.corrupt, f.frag, f.done, f.corrupt, sec, nsec); }
      ok := ExtractMessages(id, sec, nsec, data + beyond, |data|, fragmentLen);
    }

    /**
     vmars_extract_fix_messages: the packet does to this connection's fragment, to the counters and to
     the ring exactly what Extract says; false when the code would read behind `beyond` or write past a fragment.
     */
    method ExtractFixMessages(id: StreamId, sec: nat, nsec: nat, data: Text, beyond: Text) returns (ok: bool)
      requires Valid() && fragments.Roomy(id)
      modifies this`counters, ring, ring.buffer, fragments.table.Repr()
      ensures Keeps(id)
      ensures var e := Extract(old(Lookup(fragments.Fragments(), id)), data, beyond);
        && (ok <==> e.Extracted?)
        && (ok ==> State() == Advance(old(State()), id, e.frag, e.done, e.corrupt, sec, nsec))
    {
      hide Messages, Advance, Update, StoreOf, Find, Lead, Extract, Valid, Placed, NonEmpty, Meaning;
      var current := FirstHeader(data);
      ExtractHalves(Lookup(State().frags, id), data, beyond);
      if current == Some(0) {
        ok := ExtractMessages(id, sec, nsec, data + beyond, |data|, 0);
      } else {
        ok := ExtractAfterLead(id, sec, nsec, data, beyond, current);
      }
    }
  }

  lemma AdvanceCorrupt(p: ProbeState, id: StreamId, sec: nat, nsec: nat)
    ensures Advance(p, id, Lookup(p.frags, id), [], 1, sec, nsec) ==
        p.(counters := p.counters.(corrupt := p.counters.corrupt + 1))
  {
    UpdateFacts(p.frags, id, None, None);
  }

  /** A fragment extended and parsed: kept if it is still too short, dropped otherwise. */
  lemma AdvanceExtend(p: ProbeState, id: StreamId, joined: Text, o: Outcome, sec: nat, nsec: nat)
    ensures var q := Give(p.(frags := p.frags[id := joined]), o, sec, nsec);
      if o.result == EMESSAGETOOSHORT then q == Advance(p, id, Some(joined), [], 0, sec, nsec)
      else q.(frags := q.frags - {id}) == Advance(p, id, None, [o], 0, sec, nsec)
  {
    hide Give, Advance;
    var q := p.(frags := p.frags[id := joined]);
    AdvanceStore(p, id, joined, sec, nsec);
    if o.result == EMESSAGETOOSHORT {
      TooShortGivesNothing(q, id, o, sec, nsec, joined);
    } else {
      var r := Give(q, o, sec, nsec);
      AdvanceOne(q, id, o, sec, nsec);
      AdvanceRemove(r, id, sec, nsec);
      AdvanceTwice(q, id, Some(joined), [o], 0, None, [], 0, sec, nsec);
      AdvanceTwice(p, id, Some(joined), [], 0, None, [o], 0, sec, nsec);
      assert [o] + [] == [o] && [] + [o] == [o];
    }
  }

  /** The two halves of an extraction: the lead, then the message loop from the first header. */
  lemma ExtractHalves(frag: Option<Text>, data: Text, beyond: Text)
    ensures match Find(PATTERN, data)
      case None => Extract(frag, data, beyond) == Lead(frag, data, data[..|data|])
      case Some(c) =>
        && c < |data|
        && if c == 0 then Extract(frag, data, beyond) == Messages(frag, data + beyond, |data|, 0, |data|)
           else var e := Lead(frag, data, data[..c]);
             e.Extracted? ==>
               Extract(frag, data, beyond)
               == After(e.done, e.corrupt, Messages(e.frag, data + beyond, |data|, c, |data| - c))
  {
    hide Messages, Lead, MatchAt;
    assert data[..|data|] == data;
    match Find(PATTERN, data)
    case None =>
    case Some(c) => PatternFits(data, c);
  }

  lemma AdvanceRemove(p: ProbeState, id: StreamId, sec: nat, nsec: nat)
    ensures Advance(p, id, None, [], 0, sec, nsec) == p.(frags := p.frags - {id})
  {
  }

  lemma AdvanceStore(p: ProbeState, id: StreamId, f: Text, sec: nat, nsec: nat)
    ensures Advance(p, id, Some(f), [], 0, sec, nsec) == p.(frags := p.frags[id := f])
  {
  }

  lemma TooShortGivesNothing(p: ProbeState, id: StreamId, o: Outcome, sec: nat, nsec: nat, f: Text)
    requires o.result == EMESSAGETOOSHORT
    ensures Give(p, o, sec, nsec) == p
    ensures Advance(p, id, Some(f), [], 0, sec, nsec) == p.(frags := p.frags[id := f])
  {
  }
}
