/** A balance of bytes: what a connection reports and keeps is never more than what it was sent. */
module FixBalance {
  import opened Bytes
  import opened Options
  import opened Horspool
  import opened FixParser
  import opened FixCodec
  import opened FixStream

  /** The bytes that parses consumed. */
  function Spent(done: seq<Outcome>): nat {
    if done == [] then 0 else done[0].consumed + Spent(done[1..])
  }

  /** The bytes that a fragment keeps. */
  function Held(frag: Option<Text>): nat {
    match frag
    case None => 0
    case Some(f) => |f|
  }

  lemma {:induction false} SpentAppend(a: seq<Outcome>, b: seq<Outcome>)
    ensures Spent(a + b) == Spent(a) + Spent(b)
  {
    if a == [] {
      assert a + b == b;
    } else {
      assert (a + b)[1..] == a[1..] + b;
      SpentAppend(a[1..], b);
    }
  }

  lemma SpentOne(o: Outcome)
    ensures Spent([o]) == o.consumed && Spent([]) == 0
  {
    assert [o][1..] == [];
  }

  /** A buffer that is too short for its message is consumed whole. */
  lemma ShortTakesAll(mem: Text, len: nat)
    ensures var r := ParseIn(mem, len, DEFAULT);
      r.Parsed? && r.outcome.result == EMESSAGETOOSHORT ==> r.outcome.consumed == len
  {
    hide ScanNumber, ParseFields, Sum, Supplied;
    if HEADER_LEN <= len && HEADER_LEN <= |mem| {
      match ScanNumber(Seen(mem, len), HEADER_LEN, SOH, 0)
      case Stopped(n, next) =>
        var m := Seen(mem, next + n + CHECK_SUM_LEN);
        if next <= |m| { FieldsNotShort(m, next); }
      case _ =>
    }
  }

  /** A round keeps or reports at most the bytes it takes off the count. */
  lemma RoundBalance(frag: Option<Text>, w: Text, remaining: nat)
    ensures var r := RoundOf(w, remaining);
      r.Round? ==> Spent(Completed(r)) + Held(Kept(frag, r)) <= Held(frag) + r.outcome.consumed
  {
    hide ParseIn, Spent, CopyIn, NextIn;
    var r := RoundOf(w, remaining);
    if r.Round? {
      SpentOne(r.outcome);
      ShortTakesAll(w, if r.next.None? then remaining else r.next.value);
    }
  }

  lemma {:induction false} MessagesBalance(frag: Option<Text>, mem: Text, size: nat, curr: nat, remaining: nat)
    requires curr <= |mem| && 0 < remaining <= size <= |mem|
    ensures var e := Messages(frag, mem, size, curr, remaining);
      e.Extracted? ==> Spent(e.done) + Held(e.frag) <= Held(frag) + remaining
    decreases remaining
  {
    hide RoundOf, Spent, Held, StrNCpy, Kept, Completed, Tail;
    var r := RoundOf(mem[curr..], remaining);
    if r.Round? {
      RoundBalance(frag, mem[curr..], remaining);
      var left, kept := remaining - r.outcome.consumed, Kept(frag, r);
      var rest: Extracted;
      if r.next.Some? {
        MessagesBalance(kept, mem, size, curr + r.next.value, left);
        rest := Messages(kept, mem, size, curr + r.next.value, left);
      } else {
        TailBalance(kept, mem[..size], left);
        rest := Tail(kept, mem[..size], left);
      }
      if rest.Extracted? { SpentAppend(Completed(r), rest.done); }
    }
  }

  lemma TailBalance(frag: Option<Text>, data: Text, remaining: nat)
    requires remaining <= |data|
    ensures var e := Tail(frag, data, remaining);
      e.Extracted? ==> Spent(e.done) + Held(e.frag) <= Held(frag) + remaining
  {
  }

  lemma LeadBalance(frag: Option<Text>, data: Text, lead: Text)
    requires |data| < |PATTERN| ==> lead == data
    ensures var e := Lead(frag, data, lead);
      e.Extracted? ==> Spent(e.done) + Held(e.frag) <= Held(frag) + |lead|
  {
    hide Parse, StrNCpy, Spent;
    if frag.Some? { SpentOne(Parse(frag.value + StrNCpy(lead), DEFAULT)); }
    SpentOne(Outcome(OK, 0, NotStarted, [], false));
  }

  /**
   Whatever the bytes of a packet and the memory behind it, no byte counts twice: the bytes of the parses it
   completes and of the fragment it leaves are at most those of the fragment it found and its own.
   */
  lemma ExtractBalance(frag: Option<Text>, data: Text, beyond: Text)
    ensures var e := Extract(frag, data, beyond);
      e.Extracted? ==> Spent(e.done) + Held(e.frag) <= Held(frag) + |data|
  {
    hide Messages, Lead, Find, Spent, Held;
    match Find(PATTERN, data)
    case None =>
      LeadBalance(frag, data, data);
    case Some(c) =>
      PatternFits(data, c);
      if c == 0 {
        MessagesBalance(frag, data + beyond, |data|, 0, |data|);
      } else {
        LeadBalance(frag, data, data[..c]);
        var l := Lead(frag, data, data[..c]);
        if l.Extracted? {
          MessagesBalance(l.frag, data + beyond, |data|, c, |data| - c);
          var m := Messages(l.frag, data + beyond, |data|, c, |data| - c);
          if m.Extracted? { SpentAppend(l.done, m.done); }
        }
      }
  }

  /** A packet that loses a header prefix keeps and reports less than what is there. */
  lemma LossIsMissing(ms: seq<Text>, f: Text, data: Text, beyond: Text)
    requires Aligned(ms, f, data) && LosesPrefix(ms, f, data)
    ensures var e := Extract(Some(f), data, beyond);
      e.Extracted? && Spent(e.done) + Held(e.frag) < |f| + |data|
  {
    hide Find, StrNCpy, Clean, Parse, Spent, Concat;
    var s := f + data;
    TailOf(ms, s);
    assert Clean(ms[0]);
    CleanIsMessage(ms[0]);
    FindHeader(ms, s, |f|);
    assert s[|f|..] == data;
    StreamCopies(ms, f, data);
    ParseThen(ms[0], s[|ms[0]|..], DEFAULT);
    SpentOne(Parse(s, DEFAULT));
    SpentOne(Parse(ms[0], DEFAULT));
  }

  /** Where a packet ends early in the second message of its stream, it holds no NUL. */
  lemma StreamCopies(ms: seq<Text>, f: Text, data: Text)
    requires Aligned(ms, f, data) && ms != [] && |ms[0]| <= |f| + |data| < |ms[0]| + |PATTERN|
    ensures StrNCpy(data) == data
  {
    hide Clean, Concat, StrNCpy;
    var s := f + data;
    TailOf(ms, s);
    var t := s[|ms[0]|..];
    assert Clean(ms[0]) && CleanAll(ms[1..]);
    CleanIsMessage(ms[0]);
    ShortTail(ms[1..], t);
    if ms[1..] != [] {
      assert Clean(ms[1..][0]);
      CleanIsMessage(ms[1..][0]);
      NoNulIn(ms[1..][0], t);
    }
    assert forall i :: 0 <= i < |data| ==> data[i] == s[|f| + i];
    StrNCpyCopies(data);
  }
}
