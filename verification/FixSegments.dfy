/** Any packet that begins with a header, cut at its headers: what is reported, what is stored, and when it faults. */
module FixSegments {
  import opened Bytes
  import opened Options
  import opened Horspool
  import opened FixParser
  import opened FixCodec
  import opened FixStream
  import opened FixLitter

  /** The bytes from each header up to the next one or the end; there is no other header in them. */
  predicate Segmented(ss: seq<Text>): (b: bool)
    ensures b ==> ss != []
  {
    && ss != [] && PATTERN <= ss[0]
    && NextHeader(Concat(ss)) == (if |ss| == 1 then None else Some(|ss[0]|))
    && (|ss| > 1 ==> Segmented(ss[1..]))
  }

  predicate Short(s: Text) {
    Parse(s, DEFAULT).result == EMESSAGETOOSHORT
  }

  /** The parses of the segments that are not too short. */
  function Parses(ss: seq<Text>): seq<Outcome> {
    if ss == [] then [] else (if Short(ss[0]) then [] else [Parse(ss[0], DEFAULT)]) + Parses(ss[1..])
  }

  /** The bytes that the parses leave, all segments together. */
  function Unread(ss: seq<Text>): nat {
    if ss == [] then 0 else |ss[0]| - Parse(ss[0], DEFAULT).consumed + Unread(ss[1..])
  }

  /** The fragment after the segments: the copy of the last that is too short. */
  function LastShort(frag: Option<Text>, ss: seq<Text>): Option<Text>
    decreases ss
  {
    if ss == [] then frag else LastShort(if Short(ss[0]) then Some(StrNCpy(ss[0])) else frag, ss[1..])
  }

  /** Every segment that is too short fits a fragment. */
  predicate ShortFit(ss: seq<Text>) {
    forall i :: 0 <= i < |ss| ==> Short(ss[i]) ==> |ss[i]| <= CAPACITY
  }

  /**
   The last segment is seen as it is: the count is right when the loop comes to it, or it begins with a message
   and the search from it finds no header.
   */
  predicate SeenRight(last: Text, excess: nat, beyond: Text) {
    || excess == 0
    || (StartsWithMessage(last) && NextIn(last + beyond, |last| + excess) == Sought(None))
  }

  predicate StartsWithMessage(s: Text) {
    exists k :: 0 <= k <= |s| && IsMessage(s[..k])
  }

  /** What the segments lead to when the last of them is seen right. */
  function Verdict(ss: seq<Text>, frag: Option<Text>, data: Text, excess: nat): Extracted
    requires excess + Unread(ss) <= |data|
  {
    if ShortFit(ss) then Ending(Parses(ss), LastShort(frag, ss), data, excess + Unread(ss)) else Fault
  }

  /** The end of the loop: the bytes left by count, if any, become the fragment. */
  function Ending(done: seq<Outcome>, frag: Option<Text>, data: Text, left: nat): Extracted
    requires left <= |data|
  {
    if left > CAPACITY then Fault
    else if left > 0 then Extracted(Some(StrNCpy(data[|data| - left..])), done, 0)
    else Extracted(frag, done, 0)
  }

  lemma TailEnds(done: seq<Outcome>, frag: Option<Text>, data: Text, left: nat)
    requires left <= |data|
    ensures After(done, 0, Tail(frag, data, left)) == Ending(done, frag, data, left)
  {
    hide StrNCpy, After, Tail;
    TailDone(frag, data, left, done);
  }

  lemma EndingAfter(a: seq<Outcome>, b: seq<Outcome>, frag: Option<Text>, data: Text, left: nat)
    requires left <= |data|
    ensures After(a, 0, Ending(b, frag, data, left)) == Ending(a + b, frag, data, left)
  {
    hide StrNCpy;
  }

  /** A packet that begins with a header can be cut at its headers. */
  lemma {:induction false} CutAtHeaders(data: Text) returns (ss: seq<Text>)
    requires PATTERN <= data
    ensures Segmented(ss) && Concat(ss) == data
    decreases |data|
  {
    hide NextHeader;
    var n := NextHeader(data);
    if n.None? {
      ss := [data];
      assert ss[1..] == [] && Concat(ss) == data + [] == data;
    } else {
      NextIsHeader(data);
      var rest := CutAtHeaders(data[n.value..]);
      ss := [data[..n.value]] + rest;
      assert ss[1..] == rest && data == data[..n.value] + data[n.value..];
      assert Concat(ss) == data;
    }
  }

  lemma NextIsHeader(data: Text)
    requires PATTERN <= data && NextHeader(data).Some?
    ensures var n := NextHeader(data).value; PATTERN <= data[n..] && PATTERN <= data[..n]
  {
    hide FindFrom;
    var n := NextHeader(data).value;
    assert data[|PATTERN|..][n - |PATTERN|..n - |PATTERN| + |PATTERN|] == data[n..n + |PATTERN|];
    assert data[n..][..|PATTERN|] == data[n..n + |PATTERN|];
  }

  /** A round at a segment that another header ends, or at the last one while the count is right. */
  lemma RoundAtSegment(w: Text, s: Text, remaining: nat, next: Option<nat>)
    requires s <= w && NextIn(w, remaining) == Sought(next)
    requires if next.Some? then next.value == |s| else remaining == |s|
    ensures var o := Parse(s, DEFAULT);
      RoundOf(w, remaining) ==
        if o.result != EMESSAGETOOSHORT then Round(next, o, None)
        else if |s| > CAPACITY then Stuck
        else Round(next, o, Some(StrNCpy(s)))
  {
    hide NextIn, Parse, ParseIn, StrNCpy;
    assert w[..|s|] == s;
    ParseInside(w, |s|, DEFAULT);
  }

  /** A round at a last segment that begins with a message. */
  lemma RoundAtLast(last: Text, rest: Text, remaining: nat)
    requires StartsWithMessage(last) && |last| <= remaining && NextIn(last + rest, remaining) == Sought(None)
    ensures RoundOf(last + rest, remaining) == Round(None, Parse(last, DEFAULT), None) && !Short(last)
  {
    hide NextIn, Parse, ParseIn, IsMessage, RoundOf;
    var k :| 0 <= k <= |last| && IsMessage(last[..k]);
    var m, tail := last[..k], last[k..];
    assert last == m + tail && last + rest == m + (tail + rest);
    RoundAtMessage(m, tail + rest, remaining, None);
    ParseThen(m, tail, DEFAULT);
  }

  lemma SegmentFacts(ss: seq<Text>)
    requires Segmented(ss)
    ensures PATTERN <= ss[0] && |ss[0]| >= |PATTERN|
    ensures Concat(ss) == ss[0] + Concat(ss[1..])
    ensures NextHeader(Concat(ss)) == if |ss| == 1 then None else Some(|ss[0]|)
    ensures if |ss| == 1 then Concat(ss) == ss[0] else Segmented(ss[1..]) && |Concat(ss[1..])| > 0
  {
    hide NextHeader;
    if |ss| == 1 {
      assert ss[1..] == [] && ss[0] + [] == ss[0];
    } else {
      assert Concat(ss[1..]) == ss[1] + Concat(ss[1..][1..]);
    }
  }

  /** What each of the accounts takes from the first segment. */
  lemma Accounts(ss: seq<Text>, frag: Option<Text>)
    requires ss != []
    ensures var s, o, rest := ss[0], Parse(ss[0], DEFAULT), ss[1..];
      && Unread(ss) == |s| - o.consumed + Unread(rest)
      && Parses(ss) == (if Short(s) then [] else [o]) + Parses(rest)
      && LastShort(frag, ss) == LastShort(if Short(s) then Some(StrNCpy(s)) else frag, rest)
      && (ShortFit(ss) <==> (Short(s) ==> |s| <= CAPACITY) && ShortFit(rest))
  {
    hide Parse, StrNCpy, Short;
    assert forall i :: 0 <= i < |ss| - 1 ==> ss[1..][i] == ss[i + 1];
    assert forall i :: 1 <= i < |ss| ==> ss[i] == ss[1..][i - 1];
  }

  lemma NoAccounts(frag: Option<Text>)
    ensures Unread([]) == 0 && Parses([]) == [] && LastShort(frag, []) == frag && ShortFit([])
  {
  }

  lemma VerdictStep(ss: seq<Text>, frag: Option<Text>, data: Text, excess: nat)
    requires |ss| > 1 && excess + Unread(ss) <= |data|
    ensures var s, o, rest := ss[0], Parse(ss[0], DEFAULT), ss[1..];
      var more := excess + (|s| - o.consumed);
      && more + Unread(rest) == excess + Unread(ss)
      && Verdict(ss, frag, data, excess) ==
           if Short(s) && |s| > CAPACITY then Fault
           else if Short(s) then Verdict(rest, Some(StrNCpy(s)), data, more)
           else After([o], 0, Verdict(rest, frag, data, more))
  {
    hide Parse, StrNCpy, Short, ShortFit, Unread, Parses, LastShort, Ending;
    Accounts(ss, frag);
    var s, o, rest := ss[0], Parse(ss[0], DEFAULT), ss[1..];
    assert [] + Parses(rest) == Parses(rest);
    EndingAfter([o], Parses(rest), LastShort(frag, rest), data, excess + Unread(ss));
  }

  lemma OneAccount(s: Text, frag: Option<Text>)
    ensures var o := Parse(s, DEFAULT);
      && Unread([s]) == |s| - o.consumed && Parses([s]) == (if Short(s) then [] else [o])
      && LastShort(frag, [s]) == (if Short(s) then Some(StrNCpy(s)) else frag)
      && (ShortFit([s]) <==> (Short(s) ==> |s| <= CAPACITY))
  {
    hide Parse, StrNCpy, Short, ShortFit, Unread, Parses, LastShort;
    Accounts([s], frag);
    assert [s][1..] == [];
    NoAccounts(if Short(s) then Some(StrNCpy(s)) else frag);
  }

  lemma VerdictOne(s: Text, frag: Option<Text>, data: Text, excess: nat, left: nat)
    requires left == excess + (|s| - Parse(s, DEFAULT).consumed) <= |data|
    ensures Unread([s]) == |s| - Parse(s, DEFAULT).consumed
    ensures Verdict([s], frag, data, excess) ==
        if Short(s) && |s| > CAPACITY then Fault
        else if Short(s) then Ending([], Some(StrNCpy(s)), data, left)
        else Ending([Parse(s, DEFAULT)], frag, data, left)
  {
    hide Parse, StrNCpy, Short, ShortFit, Unread, Parses, LastShort, Ending;
    OneAccount(s, frag);
  }

  /** One segment of several: reported, or stored when it is too short; and the loop comes to the next one. */
  lemma SegmentStep(ss: seq<Text>, frag: Option<Text>, mem: Text, size: nat, curr: nat, remaining: nat, beyond: Text)
    requires Segmented(ss) && |ss| > 1 && size == curr + |Concat(ss)| <= |mem|
    requires mem[curr..] == Concat(ss) + beyond && size - curr <= remaining <= size
    ensures var s, o := ss[0], Parse(ss[0], DEFAULT);
      && curr + |s| < size == curr + |s| + |Concat(ss[1..])| && mem[curr + |s|..] == Concat(ss[1..]) + beyond
      && 0 < remaining - o.consumed
      && Messages(frag, mem, size, curr, remaining) ==
           if Short(s) && |s| > CAPACITY then Fault
           else if Short(s) then Messages(Some(StrNCpy(s)), mem, size, curr + |s|, remaining - o.consumed)
           else After([o], 0, Messages(frag, mem, size, curr + |s|, remaining - o.consumed))
  {
    hide NextHeader, NextIn, Parse, RoundOf, Messages, Segmented, Concat, StrNCpy;
    SegmentFacts(ss);
    var s, w := ss[0], mem[curr..];
    assert w == s + (Concat(ss[1..]) + beyond);
    assert Concat(ss) <= w by { assert w[..|Concat(ss)|] == Concat(ss); }
    assert mem[curr + |s|..] == Concat(ss[1..]) + beyond;
    NextFinds(w, Concat(ss), remaining);
    RoundAtSegment(w, s, remaining, Some(|s|));
    var r := RoundOf(w, remaining);
    if r.Stuck? {
      StuckFaults(frag, mem, size, curr, remaining);
    } else {
      LoopStep(frag, mem, size, curr, remaining, r);
      AfterNothing(Messages(Kept(frag, r), mem, size, curr + |s|, remaining - r.outcome.consumed));
    }
  }

  /** The last segment, seen right. */
  lemma SegmentEnd(s: Text, frag: Option<Text>, mem: Text, size: nat, excess: nat, beyond: Text)
    requires |s| >= |PATTERN| && NextHeader(s) == None && SeenRight(s, excess, beyond)
    requires |s| + excess <= size <= |mem| && mem[size - |s|..] == s + beyond
    ensures excess + Unread([s]) <= size
    ensures Messages(frag, mem, size, size - |s|, |s| + excess) == Verdict([s], frag, mem[..size], excess)
  {
    hide NextHeader, NextIn, Parse, RoundOf, Messages, StrNCpy, Tail, After, StartsWithMessage, Verdict;
    var w, remaining, o := mem[size - |s|..], |s| + excess, Parse(s, DEFAULT);
    assert s <= w by { assert w[..|s|] == s; }
    var data, left := mem[..size], excess + (|s| - o.consumed);
    VerdictOne(s, frag, data, excess, left);
    if Short(s) {
      TailEnds([], Some(StrNCpy(s)), data, left);
    } else {
      TailEnds([o], frag, data, left);
    }
    if excess == 0 {
      NextInside(w, s);
      RoundAtSegment(w, s, remaining, None);
    } else {
      RoundAtLast(s, beyond, remaining);
    }
    var r := RoundOf(w, remaining);
    if r.Stuck? {
      StuckFaults(frag, mem, size, size - |s|, remaining);
    } else {
      LoopStep(frag, mem, size, size - |s|, remaining, r);
    }
  }

  lemma {:induction false} SegmentLoop(ss: seq<Text>, frag: Option<Text>, mem: Text, size: nat, curr: nat,
      remaining: nat, excess: nat, beyond: Text)
    requires Segmented(ss) && curr < size == curr + |Concat(ss)| <= |mem| && mem[curr..] == Concat(ss) + beyond
    requires 0 < remaining <= size && remaining == size - curr + excess
    requires SeenRight(ss[|ss| - 1], excess + Unread(ss[..|ss| - 1]), beyond)
    ensures excess + Unread(ss) <= size
    ensures Messages(frag, mem, size, curr, remaining) == Verdict(ss, frag, mem[..size], excess)
    decreases |ss|
  {
    hide NextHeader, Parse, Messages, Segmented, Concat, StrNCpy, Short, Unread, SeenRight, Verdict, After, Parses,
      LastShort, ShortFit;
    SegmentFacts(ss);
    if |ss| == 1 {
      assert ss == [ss[0]] && ss[..0] == [];
      NoAccounts(frag);
      Accounts(ss, frag);
      SegmentEnd(ss[0], frag, mem, size, excess, beyond);
    } else {
      var s, o, rest := ss[0], Parse(ss[0], DEFAULT), ss[1..];
      var kept, more := if Short(s) then Some(StrNCpy(s)) else frag, excess + (|s| - o.consumed);
      SegmentStep(ss, frag, mem, size, curr, remaining, beyond);
      Accounts(ss, frag);
      Accounts(ss[..|ss| - 1], frag);
      assert ss[..|ss| - 1][1..] == rest[..|rest| - 1];
      SegmentLoop(rest, kept, mem, size, curr + |s|, remaining - o.consumed, more, beyond);
      VerdictStep(ss, frag, mem[..size], excess);
    }
  }

  /**
   Any packet that begins with a header, cut at its headers: the segments are parsed in order, those too short
   become the fragment in turn, the others are reported; and if the parses left bytes unread, as many from the
   end of the packet become the fragment in place of that. It faults exactly when a segment too short or those
   bytes do not fit a fragment.
   */
  lemma AnyPacket(ss: seq<Text>, frag: Option<Text>, beyond: Text)
    requires Segmented(ss) && SeenRight(ss[|ss| - 1], Unread(ss[..|ss| - 1]), beyond)
    ensures var data, left := Concat(ss), Unread(ss);
      && left <= |data|
      && Extract(frag, data, beyond) ==
           if !ShortFit(ss) || left > CAPACITY then Fault
           else if left > 0 then Extracted(Some(StrNCpy(data[|data| - left..])), Parses(ss), 0)
           else Extracted(LastShort(frag, ss), Parses(ss), 0)
  {
    hide NextHeader, Parse, Messages, Segmented, Concat, StrNCpy, Short, Unread, SeenRight, MatchAt;
    SegmentFacts(ss);
    var data := Concat(ss);
    HeaderFirst(data);
    assert (data + beyond)[0..] == data + beyond && (data + beyond)[..|data|] == data;
    SegmentLoop(ss, frag, data + beyond, |data|, 0, |data|, 0, beyond);
  }

  lemma HeaderFirst(data: Text)
    requires PATTERN <= data
    ensures Find(PATTERN, data) == Some(0)
  {
    assert data[0..|PATTERN|] == PATTERN;
    assert MatchAt(PATTERN, data, 0);
  }
}
