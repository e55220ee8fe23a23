/** Reassembly of one connection: what a packet does to the stored fragment, and why packet boundaries do not matter. */
module FixStream {
  import opened Bytes
  import opened Horspool
  import opened Options
  import opened FixParser
  import opened FixCodec

  /** "8=FIX.4." */
  const PATTERN: Text := [56, 61, 70, 73, 88, 46, 52, 46]

  /** MAX_FRAGMENT_TOTAL_SIZE less the fragment header. */
  const CAPACITY := 4088

  /**
   What one packet leads to: the fragment stored afterwards, the outcomes of the parses that were not
   too short, in order, and the corruption count. Fault: a read behind the memory at hand, or a write
   past the fragment buffer.
   */
  datatype Extracted = Fault | Extracted(frag: Option<Text>, done: seq<Outcome>, corrupt: nat)

  function After(done: seq<Outcome>, corrupt: nat, e: Extracted): Extracted {
    match e
    case Fault => Fault
    case Extracted(frag, more, c) => Extracted(frag, done + more, corrupt + c)
  }

  /** put_fragment of bytes that are there. */
  function Stored(data: Text): Extracted {
    if |data| > CAPACITY then Fault else Extracted(Some(StrNCpy(data)), [], 0)
  }

  function Zeros(n: nat): (z: Text)
    ensures |z| == n
  {
    seq(n, _ => NUL)
  }

  /** What strncpy copies when told len bytes: it reads no further than the first NUL. None: it runs out of memory. */
  function CopyIn(mem: Text, len: nat): (t: Option<Text>)
    ensures t.Some? ==> |t.value| == len
  {
    if len <= |mem| then Some(StrNCpy(mem[..len]))
    else if NUL in mem then Some(StrNCpy(mem + Zeros(len - |mem|)))
    else None
  }

  /** The bytes behind the pattern of the header at the start of w. */
  function Behind(w: Text): (r: Text)
    ensures |r| == if |w| >= |PATTERN| then |w| - |PATTERN| else 0
  {
    if |w| >= |PATTERN| then w[|PATTERN|..] else []
  }

  /** The search for the next header; w is the memory from the current one on, `remaining` is buf_remaining. */
  function NextIn(w: Text, remaining: nat): (r: Sought)
    ensures r.Sought? && r.at.Some? ==>
      |PATTERN| <= r.at.value <= |w| && r.at.value + |PATTERN| <= remaining
  {
    if remaining > |PATTERN| then
      SearchInSpec(PATTERN, Behind(w), remaining - |PATTERN|);
      match SearchIn(PATTERN, Behind(w), remaining - |PATTERN|)
      case Past => Past
      case Sought(None) => Sought(None)
      case Sought(Some(n)) => Sought(Some(|PATTERN| + n))
    else Sought(None)
  }

  /** One round of the message loop: the next header, the parse, and what is stored if the message is too short. */
  datatype Round = Stuck | Round(next: Option<nat>, outcome: Outcome, stored: Option<Text>)

  function RoundOf(w: Text, remaining: nat): (r: Round)
    ensures r.Round? ==>
      var len := if r.next.None? then remaining else r.next.value;
      && len <= remaining && r.outcome.consumed <= len && (remaining > 0 ==> r.outcome.consumed > 0)
      && (r.next.Some? ==> |PATTERN| <= len <= |w| && len + |PATTERN| <= remaining)
      && (r.stored.Some? <==> r.outcome.result == EMESSAGETOOSHORT)
  {
    match NextIn(w, remaining)
    case Past => Stuck
    case Sought(next) =>
      var len := if next.None? then remaining else next.value;
      match ParseIn(w, len, DEFAULT)
      case ReadPast => Stuck
      case Parsed(o) =>
        if o.result != EMESSAGETOOSHORT then Round(next, o, None)
        else if len > CAPACITY then Stuck
        else
          match CopyIn(w, len)
          case None => Stuck
          case Some(t) => Round(next, o, Some(t))
  }

  /** The fragment after a round, and the parse it completed if it completed one. */
  function Kept(frag: Option<Text>, r: Round): Option<Text>
    requires r.Round?
  {
    if r.stored.Some? then r.stored else frag
  }

  function Completed(r: Round): seq<Outcome>
    requires r.Round?
  {
    if r.stored.Some? then [] else [r.outcome]
  }

  /** What follows the loop: the last bytes of the packet, as many as the count says are left, become the fragment. */
  function Tail(frag: Option<Text>, data: Text, remaining: nat): Extracted
    requires remaining <= |data|
  {
    if remaining > 0 then Stored(data[|data| - remaining..]) else Extracted(frag, [], 0)
  }

  /**
   The message loop from a header at curr on. mem is the packet and the memory behind it, size the length of
   the packet; the count in buf_remaining may be more than what is left of the packet.
   */
  function Messages(frag: Option<Text>, mem: Text, size: nat, curr: nat, remaining: nat): Extracted
    requires curr <= |mem| && 0 < remaining <= size <= |mem|
    decreases remaining
  {
    match RoundOf(mem[curr..], remaining)
    case Stuck => Fault
    case Round(next, o, stored) =>
      var r := Round(next, o, stored);
      var left := remaining - o.consumed;
      match next
      case Some(n) => After(Completed(r), 0, Messages(Kept(frag, r), mem, size, curr + n, left))
      case None => After(Completed(r), 0, Tail(Kept(frag, r), mem[..size], left))
  }

  /** The bytes of a packet before its first header, joined to the stored fragment if there is one. */
  function Lead(frag: Option<Text>, data: Text, lead: Text): Extracted {
    match frag
    case None =>
      if |data| < |PATTERN| then Stored(data) else Extracted(None, [], 1)
    case Some(f) =>
      if |f| + |lead| < CAPACITY then
        var joined := f + StrNCpy(lead);
        var o := Parse(joined, DEFAULT);
        if o.result == EMESSAGETOOSHORT then Extracted(Some(joined), [], 0) else Extracted(None, [o], 0)
      else
        Extracted(frag, [], 0)
  }

  /**
   vmars_extract_fix_messages for one connection, as a function of its stored fragment, the packet, and
   the memory behind the packet.
   */
  function Extract(frag: Option<Text>, data: Text, beyond: Text): Extracted {
    match Find(PATTERN, data)
    case None => Lead(frag, data, data)
    case Some(c) =>
      PatternFits(data, c);
      if c == 0 then Messages(frag, data + beyond, |data|, 0, |data|)
      else
        match Lead(frag, data, data[..c])
        case Fault => Fault
        case Extracted(frag', done, corrupt) =>
          After(done, corrupt, Messages(frag', data + beyond, |data|, c, |data| - c))
  }

  lemma PatternFits(s: Text, p: nat)
    ensures MatchAt(PATTERN, s, p) ==> p + |PATTERN| <= |s|
  {
  }

  // ----- Clean streams

  /** A message as the reassembly needs it: framed, shorter than a fragment, no NUL, one header. */
  ghost predicate Clean(m: Text) {
    && IsMessage(m) && |m| < CAPACITY && NUL !in m
    && forall p: int :: 0 < p ==> !MatchAt(PATTERN, m, p)
  }

  ghost predicate CleanAll(ms: seq<Text>) {
    forall i :: 0 <= i < |ms| ==> Clean(ms[i])
  }

  /** How many whole messages a prefix of the stream holds, and the bytes since the last boundary. */
  datatype Cut = Cut(count: nat, rest: Text)

  function Split(ms: seq<Text>, s: Text): (c: Cut)
    ensures c.count <= |ms|
  {
    if ms == [] || |s| < |ms[0]| then Cut(0, s)
    else
      var c := Split(ms[1..], s[|ms[0]|..]);
      Cut(c.count + 1, c.rest)
  }

  function Outcomes(ms: seq<Text>): seq<Outcome> {
    if ms == [] then [] else [Parse(ms[0], DEFAULT)] + Outcomes(ms[1..])
  }

  /** The fragment that should be stored: the bytes since the last boundary, absent when there are none. */
  function Pending(rest: Text): Option<Text> {
    if rest == [] then None else Some(rest)
  }

  /** What a prefix s of the stream should have led to. */
  function Ideal(ms: seq<Text>, s: Text): Extracted {
    var c := Split(ms, s);
    Extracted(Pending(c.rest), Outcomes(ms[..c.count]), 0)
  }

  lemma StartsWithPattern(m: Text)
    requires IsMessage(m)
    ensures |m| > HEADER_LEN && m[..|PATTERN|] == PATTERN && MatchAt(PATTERN, m, 0)
  {
    assert m[..|PATTERN|] == m[..HEADER_LEN][..|PATTERN|];
    assert m[0..|PATTERN|] == m[..|PATTERN|];
  }

  lemma MatchInSuffix(s: Text, k: nat, q: nat)
    requires k <= |s|
    ensures MatchAt(PATTERN, s[k..], q) <==> MatchAt(PATTERN, s, k + q)
  {
    if q + |PATTERN| <= |s| - k {
      assert s[k..][q..q + |PATTERN|] == s[k + q..k + q + |PATTERN|];
    }
  }

  /** No header starts inside the first message, not even one that straddles its end. */
  lemma NoEarlyHeader(ms: seq<Text>, s: Text, p: nat)
    requires CleanAll(ms) && ms != [] && s <= Concat(ms) && 0 < p < |ms[0]|
    ensures !MatchAt(PATTERN, s, p)
  {
    var m, tail := ms[0], Concat(ms[1..]);
    if p + |PATTERN| <= |s| {
      if p + |PATTERN| <= |m| {
        assert s[p..p + |PATTERN|] == m[p..p + |PATTERN|];
        assert !MatchAt(PATTERN, m, p);
      } else {
        assert |ms| > 1;
        StartsWithPattern(ms[1]);
        var d := |m| - p;
        assert s[p..p + |PATTERN|][d] == s[|m|] == tail[0] == ms[1][0] == PATTERN[0];
        assert PATTERN[d] != PATTERN[0];
      }
    }
  }

  lemma HeaderAtEnd(ms: seq<Text>, s: Text)
    requires CleanAll(ms) && ms != [] && s <= Concat(ms) && |s| >= |ms[0]| + |PATTERN|
    ensures MatchAt(PATTERN, s, |ms[0]|)
  {
    var n := |ms[0]|;
    assert |ms| > 1 && Clean(ms[1]);
    StartsWithPattern(ms[1]);
    assert s[n..n + |PATTERN|] == ms[1][..|PATTERN|];
  }

  /** Searching the stream from inside the first message finds the start of the second, once it is all there. */
  lemma FindHeader(ms: seq<Text>, s: Text, k: nat)
    requires CleanAll(ms) && ms != [] && s <= Concat(ms) && 0 < k <= |ms[0]| && k <= |s|
    ensures Find(PATTERN, s[k..]) == if |s| >= |ms[0]| + |PATTERN| then Some(|ms[0]| - k) else None
  {
    hide MatchAt, Find, CleanAll, Concat;
    var n := |ms[0]|;
    var r := Find(PATTERN, s[k..]);
    if |s| >= n + |PATTERN| {
      HeaderAtEnd(ms, s);
      MatchInSuffix(s, k, n - k);
    }
    if r.Some? {
      MatchInSuffix(s, k, r.value);
      PatternFits(s, k + r.value);
      if k + r.value < n { NoEarlyHeader(ms, s, k + r.value); }
    }
  }

  // ----- One packet of a clean stream

  lemma SplitStep(ms: seq<Text>, s: Text)
    ensures Split(ms, s) ==
      if ms == [] || |s| < |ms[0]| then Cut(0, s)
      else Cut(Split(ms[1..], s[|ms[0]|..]).count + 1, Split(ms[1..], s[|ms[0]|..]).rest)
  {
  }

  lemma SplitWhole(ms: seq<Text>, s: Text)
    requires ms != [] && |s| >= |ms[0]|
    ensures var c, rest := Split(ms, s), Split(ms[1..], s[|ms[0]|..]);
      c.rest == rest.rest && Outcomes(ms[..c.count]) == [Parse(ms[0], DEFAULT)] + Outcomes(ms[1..][..rest.count])
  {
    hide Parse, Split, Outcomes;
    SplitStep(ms, s);
    var n := Split(ms, s).count;
    OutcomesCons(ms[..n]);
    assert ms[..n][1..] == ms[1..][..n - 1];
  }

  lemma OutcomesCons(ms: seq<Text>)
    requires ms != []
    ensures Outcomes(ms) == [Parse(ms[0], DEFAULT)] + Outcomes(ms[1..])
  {
  }

  /** A whole message at the start of s comes first in what s should lead to. */
  lemma IdealCons(ms: seq<Text>, s: Text)
    requires ms != [] && |s| >= |ms[0]|
    ensures Ideal(ms, s) == After([Parse(ms[0], DEFAULT)], 0, Ideal(ms[1..], s[|ms[0]|..]))
  {
    SplitWhole(ms, s);
  }

  lemma SplitPartial(ms: seq<Text>, s: Text)
    requires ms == [] || |s| < |ms[0]|
    ensures Ideal(ms, s) == Extracted(Pending(s), [], 0)
  {
  }

  lemma TailOf(ms: seq<Text>, s: Text)
    requires ms != [] && s <= Concat(ms) && |s| >= |ms[0]|
    ensures s[..|ms[0]|] == ms[0] && s[|ms[0]|..] <= Concat(ms[1..])
    ensures s == ms[0] + s[|ms[0]|..]
  {
    var k := |ms[0]|;
    assert s == Concat(ms)[..|s|];
    assert s[k..] == Concat(ms[1..])[..|s| - k];
  }

  lemma NoNulIn(m: Text, s: Text)
    requires s <= m && NUL !in m
    ensures NUL !in s
  {
    assert forall i :: 0 <= i < |s| ==> s[i] == m[i];
  }

  /** A short tail of the stream after a whole message is part of the next message. */
  lemma ShortTail(ms: seq<Text>, s: Text)
    requires CleanAll(ms) && s <= Concat(ms) && |s| < |PATTERN|
    ensures (ms == [] && s == []) || (ms != [] && |s| < |ms[0]| && s <= ms[0])
    ensures StrNCpy(s) == s
  {
    if ms == [] {
      assert s == [];
    } else {
      StartsWithPattern(ms[0]);
      assert s == Concat(ms)[..|s|] == ms[0][..|s|];
      NoNulIn(ms[0], s);
    }
    StrNCpyCopies(s);
  }

  /** The next header inside d, as the search finds it. */
  function NextHeader(d: Text): (n: Option<nat>)
    ensures n.Some? ==> |PATTERN| <= n.value <= |d|
  {
    if |d| > |PATTERN| then
      match Find(PATTERN, d[|PATTERN|..])
      case None => None
      case Some(n) => Some(|PATTERN| + n)
    else None
  }

  /** While the count is right, a round sees the packet alone. */
  lemma NextInside(w: Text, d: Text)
    requires d <= w && |d| >= |PATTERN|
    ensures NextIn(w, |d|) == Sought(NextHeader(d))
  {
    hide Find, SearchIn;
    var n := |d| - |PATTERN|;
    assert Behind(w)[..n] == d[|PATTERN|..];
    if n > 0 { SearchFinds(PATTERN, Behind(w), n, n); }
  }

  lemma RoundInside(w: Text, d: Text)
    requires d <= w && |d| >= |PATTERN|
    ensures var n := NextHeader(d);
      var window := if n.None? then d else d[..n.value];
      var o := Parse(window, DEFAULT);
      && (o.result != EMESSAGETOOSHORT ==> RoundOf(w, |d|) == Round(n, o, None))
      && (o.result == EMESSAGETOOSHORT && |window| <= CAPACITY ==>
            RoundOf(w, |d|) == Round(n, o, Some(StrNCpy(window))))
      && (o.result == EMESSAGETOOSHORT && |window| > CAPACITY ==> RoundOf(w, |d|) == Stuck)
  {
    hide NextIn, NextHeader, Parse, ParseIn, StrNCpy;
    NextInside(w, d);
    var n := NextHeader(d);
    var k := if n.None? then |d| else n.value;
    assert d[..k] == w[..k] && d[..|d|] == d;
    ParseInside(w, k, DEFAULT);
  }

  /** One unfolding of the loop. */
  lemma LoopStep(frag: Option<Text>, mem: Text, size: nat, curr: nat, remaining: nat, r: Round)
    requires curr <= |mem| && 0 < remaining <= size <= |mem| && r.Round? && RoundOf(mem[curr..], remaining) == r
    ensures r.outcome.consumed <= remaining
    ensures match r.next
      case Some(n) =>
        && curr + n <= |mem| && 0 < remaining - r.outcome.consumed
        && Messages(frag, mem, size, curr, remaining)
          == After(Completed(r), 0, Messages(Kept(frag, r), mem, size, curr + n, remaining - r.outcome.consumed))
      case None =>
        Messages(frag, mem, size, curr, remaining)
          == After(Completed(r), 0, Tail(Kept(frag, r), mem[..size], remaining - r.outcome.consumed))
  {
    hide NextIn, ParseIn, CopyIn, Tail;
  }

  /** A whole message with another header after it: the loop consumes it and goes on at that header. */
  lemma LoopOn(mem: Text, size: nat, curr: nat, m: Text, o: Outcome)
    requires curr < size <= |mem| && m <= mem[curr..size] && NextHeader(mem[curr..size]) == Some(|m|)
    requires |m| + |PATTERN| <= size - curr
    requires Parse(m, DEFAULT) == o && o.result != EMESSAGETOOSHORT && o.consumed == |m|
    ensures Messages(None, mem, size, curr, size - curr)
      == After([o], 0, Messages(None, mem, size, curr + |m|, size - curr - |m|))
  {
    hide Parse, NextHeader, StrNCpy, RoundOf, Messages;
    var w, d := mem[curr..], mem[curr..size];
    assert d[..|m|] == m;
    RoundInside(w, d);
    LoopStep(None, mem, size, curr, size - curr, Round(Some(|m|), o, None));
  }

  /** A whole message with no other header after it: what follows it is stored. */
  lemma LoopEnd(mem: Text, size: nat, curr: nat, t: Text, o: Outcome)
    requires curr < size <= |mem| && |PATTERN| <= size - curr && NextHeader(mem[curr..size]) == None
    requires Parse(mem[curr..size], DEFAULT) == o && o.result != EMESSAGETOOSHORT
    requires |t| <= CAPACITY && StrNCpy(t) == t && o.consumed == size - curr - |t| && mem[size - |t|..size] == t
    ensures Messages(None, mem, size, curr, size - curr) == Extracted(Pending(t), [o], 0)
  {
    hide Parse, NextHeader, StrNCpy, RoundOf, Messages;
    RoundInside(mem[curr..], mem[curr..size]);
    LoopStep(None, mem, size, curr, size - curr, Round(None, o, None));
    assert mem[..size][size - |t|..] == t;
    assert [o] + [] == [o];
  }

  /** A message that is not complete: it is stored. */
  lemma LoopShort(mem: Text, size: nat, curr: nat, d: Text)
    requires curr < size <= |mem| && d == mem[curr..size] && |PATTERN| <= |d| <= CAPACITY
    requires NextHeader(d) == None && StrNCpy(d) == d
    requires Parse(d, DEFAULT) == Outcome(EMESSAGETOOSHORT, |d|, NotStarted, [], false)
    ensures Messages(None, mem, size, curr, size - curr) == Extracted(Pending(d), [], 0)
  {
    hide Parse, NextHeader, StrNCpy, RoundOf, Messages;
    RoundInside(mem[curr..], d);
    LoopStep(None, mem, size, curr, size - curr, Round(None, Parse(d, DEFAULT), Some(d)));
    AfterNothing(Extracted(Some(d), [], 0));
  }

  lemma AfterTwice(a: seq<Outcome>, b: seq<Outcome>, e: Extracted)
    ensures After(a, 0, After(b, 0, e)) == After(a + b, 0, e)
  {
    if e.Extracted? { assert a + (b + e.done) == a + b + e.done; }
  }

  lemma TailDone(frag: Option<Text>, data: Text, remaining: nat, done: seq<Outcome>)
    requires remaining <= |data|
    ensures After(done, 0, Tail(frag, data, remaining)) ==
      if remaining == 0 then Extracted(frag, done, 0)
      else if remaining > CAPACITY then Fault
      else Extracted(Some(StrNCpy(data[|data| - remaining..])), done, 0)
  {
    hide StrNCpy;
    assert done + [] == done;
  }

  lemma AfterNothing(e: Extracted)
    ensures After([], 0, e) == e
  {
    if e.Extracted? { assert [] + e.done == e.done; }
  }

  /** A stretch of a clean stream that begins at a header: its first message, and the header after it. */
  lemma CleanStart(ms: seq<Text>, d: Text)
    requires CleanAll(ms) && d <= Concat(ms) && |d| >= |PATTERN|
    ensures ms != [] && IsMessage(ms[0]) && CleanAll(ms[1..]) && |ms[0]| > 0
    ensures NextHeader(d) == if |d| >= |ms[0]| + |PATTERN| then Some(|ms[0]|) else None
  {
    hide Find, Concat;
    ConcatNone(ms);
    var m := ms[0];
    assert Clean(m);
    CleanIsMessage(m);
    StartsWithPattern(m);
    if |d| > |PATTERN| { FindHeader(ms, d, |PATTERN|); }
  }

  lemma ConcatNone(ms: seq<Text>)
    ensures ms == [] ==> Concat(ms) == []
  {
  }

  lemma WholeMessage(m: Text)
    requires IsMessage(m)
    ensures Parse(m, DEFAULT).consumed == |m| && Parse(m, DEFAULT).result != EMESSAGETOOSHORT
  {
    hide Parse, IsMessage;
    ParseThen(m, [], DEFAULT);
  }

  /** The message loop on a clean stream that begins at a header, whatever lies behind the packet. */
  lemma {:induction false} MessagesClean(ms: seq<Text>, mem: Text, size: nat, curr: nat)
    requires curr < size <= |mem| && CleanAll(ms) && mem[curr..size] <= Concat(ms) && size - curr >= |PATTERN|
    ensures Messages(None, mem, size, curr, size - curr) == Ideal(ms, mem[curr..size])
    decreases |ms|
  {
    hide Parse, NextHeader, StrNCpy, Clean, CleanAll, IsMessage, Messages, Ideal, Concat;
    var d := mem[curr..size];
    CleanStart(ms, d);
    var m := ms[0];
    if |d| < |m| {
      PartialWindow(ms, d);
      SplitPartial(ms, d);
      LoopShort(mem, size, curr, d);
    } else {
      TailOf(ms, d);
      IdealCons(ms, d);
      WholeMessage(m);
      var t, o := d[|m|..], Parse(m, DEFAULT);
      assert t == mem[curr + |m|..size];
      if |t| >= |PATTERN| {
        LoopOn(mem, size, curr, m, o);
        MessagesClean(ms[1..], mem, size, curr + |m|);
      } else {
        ParseThen(m, t, DEFAULT);
        ShortTail(ms[1..], t);
        SplitPartial(ms[1..], t);
        LoopEnd(mem, size, curr, t, o);
      }
    }
  }

  lemma CleanIsMessage(m: Text)
    requires Clean(m)
    ensures IsMessage(m) && |m| < CAPACITY && NUL !in m
  {
  }

  /** A proper prefix of the first message is stored as it is. */
  lemma PartialWindow(ms: seq<Text>, d: Text)
    requires CleanAll(ms) && ms != [] && d <= Concat(ms) && |d| < |ms[0]|
    ensures Parse(d, DEFAULT) == Outcome(EMESSAGETOOSHORT, |d|, NotStarted, [], false)
    ensures StrNCpy(d) == d && |d| < CAPACITY && d <= ms[0]
  {
    var m := ms[0];
    assert Clean(m);
    assert d == Concat(ms)[..|d|] == m[..|d|];
    PrefixTooShort(m, |d|, DEFAULT);
    NoNulIn(m, d);
    StrNCpyCopies(d);
  }

  /**
   The one case the code gets wrong: a packet completes the pending message, brings no whole header
   of its own, and ends in one to seven bytes of the next message.
   */
  predicate LosesPrefix(ms: seq<Text>, f: Text, data: Text) {
    f != [] && ms != [] && |ms[0]| < |f| + |data| && Find(PATTERN, data) == None
  }

  /** The packet lines up with the stream: f is what is pending, data comes next. */
  ghost predicate Aligned(ms: seq<Text>, f: Text, data: Text) {
    && CleanAll(ms) && (ms != [] ==> |f| < |ms[0]|) && (ms == [] ==> f == [])
    && data != [] && f + data <= Concat(ms)
  }

  /** A packet that arrives at a message boundary. */
  lemma ExtractAtBoundary(ms: seq<Text>, data: Text, beyond: Text)
    requires Aligned(ms, [], data)
    ensures Extract(None, data, beyond) == Ideal(ms, data)
  {
    hide Find, Messages, StrNCpy, Clean;
    assert [] + data == data;
    assert ms != [];
    assert Clean(ms[0]);
    CleanIsMessage(ms[0]);
    StartsWithPattern(ms[0]);
    if |data| >= |PATTERN| {
      assert data[0..|PATTERN|] == Concat(ms)[..|PATTERN|] == ms[0][..|PATTERN|];
      assert Find(PATTERN, data) == Some(0) by { assert MatchAt(PATTERN, data, 0); }
      assert (data + beyond)[0..|data|] == data;
      MessagesClean(ms, data + beyond, |data|, 0);
    } else {
      ShortTail(ms, data);
      assert Find(PATTERN, data) == None;
      SplitPartial(ms, data);
    }
  }

  /** The lead of a packet completes the pending message. */
  lemma LeadCompletes(m: Text, f: Text, data: Text, lead: Text)
    requires Clean(m) && f != [] && f + lead == m
    ensures Lead(Some(f), data, lead) == Extracted(None, [Parse(m, DEFAULT)], 0)
  {
    hide Parse;
    CleanIsMessage(m);
    LeadIsPlain(m, f, lead);
    ParseThen(m, [], DEFAULT);
    assert m + [] == m;
  }

  /** A packet that continues a pending message without completing it. */
  lemma ExtractMore(ms: seq<Text>, f: Text, data: Text, beyond: Text)
    requires Aligned(ms, f, data) && f != [] && |f| + |data| < |ms[0]|
    ensures Extract(Some(f), data, beyond) == Ideal(ms, f + data)
  {
    var m, s := ms[0], f + data;
    assert Clean(m);
    CleanIsMessage(m);
    FindHeader(ms, s, |f|);
    assert s[|f|..] == data;
    PartialWindow(ms, s);
    hide Find, Messages, StrNCpy, Clean, Parse;
    LeadIsPlain(m, f, data);
    SplitPartial(ms, s);
  }

  /** A packet whose lead completes the pending message and that goes on with a header. */
  lemma LeadThen(f: Text, data: Text, beyond: Text, c: nat, o: Outcome)
    requires 0 < c <= |data| && Find(PATTERN, data) == Some(c)
    requires Lead(Some(f), data, data[..c]) == Extracted(None, [o], 0)
    ensures Extract(Some(f), data, beyond) == After([o], 0, Messages(None, data + beyond, |data|, c, |data| - c))
  {
    hide Lead, Messages, Find;
  }

  /** Where a packet completes the pending message, and what follows there. */
  lemma InsideFacts(ms: seq<Text>, f: Text, data: Text)
    requires Aligned(ms, f, data) && f != [] && |f| + |data| >= |ms[0]|
    ensures var c := |ms[0]| - |f|;
      && 0 < c <= |data| && Clean(ms[0]) && CleanAll(ms[1..])
      && f + data[..c] == ms[0] && data[c..] <= Concat(ms[1..])
      && Find(PATTERN, data) == (if |data| - c >= |PATTERN| then Some(c) else None)
      && Ideal(ms, f + data) == After([Parse(ms[0], DEFAULT)], 0, Ideal(ms[1..], data[c..]))
  {
    hide Find, Parse, Ideal, Concat, Clean;
    var m, s := ms[0], f + data;
    var c := |m| - |f|;
    FindHeader(ms, s, |f|);
    TailOf(ms, s);
    IdealCons(ms, s);
    assert s[|f|..] == data && s[|m|..] == data[c..] && s[..|m|] == f + data[..c];
  }

  /** A packet that completes a pending message. */
  lemma ExtractInside(ms: seq<Text>, f: Text, data: Text, beyond: Text)
    requires Aligned(ms, f, data) && f != [] && !LosesPrefix(ms, f, data) && |f| + |data| >= |ms[0]|
    ensures Extract(Some(f), data, beyond) == Ideal(ms, f + data)
  {
    hide Find, Messages, StrNCpy, Clean, CleanAll, Concat, Parse, Lead, Ideal, Split;
    InsideFacts(ms, f, data);
    var m, c := ms[0], |ms[0]| - |f|;
    LeadCompletes(m, f, data, data[..c]);
    if |data| - c >= |PATTERN| {
      LeadThen(f, data, beyond, c, Parse(m, DEFAULT));
      assert (data + beyond)[c..|data|] == data[c..];
      MessagesClean(ms[1..], data + beyond, |data|, c);
    } else {
      assert data[c..] == [] && data == data[..c];
      ShortTail(ms[1..], []);
      SplitPartial(ms[1..], []);
    }
  }

  lemma LeadIsPlain(m: Text, f: Text, lead: Text)
    requires f + lead <= m && NUL !in m
    ensures StrNCpy(lead) == lead
  {
    NoNulIn(m, f + lead);
    assert forall i :: 0 <= i < |lead| ==> lead[i] == (f + lead)[|f| + i];
    StrNCpyCopies(lead);
  }

  /** The excluded case does go wrong: the bytes after the boundary are in no fragment. */
  lemma ExtractLoses(ms: seq<Text>, f: Text, data: Text, beyond: Text)
    requires Aligned(ms, f, data) && LosesPrefix(ms, f, data)
    ensures Extract(Some(f), data, beyond) != Ideal(ms, f + data)
  {
    hide Find, StrNCpy, Clean, Parse;
    var s := f + data;
    SplitWhole(ms, s);
    TailOf(ms, s);
    var t := s[|ms[0]|..];
    FindHeader(ms, s, |f|) by { assert Clean(ms[0]); }
    assert s[|f|..] == data;
    assert CleanAll(ms[1..]);
    ShortTail(ms[1..], t);
    SplitPartial(ms[1..], t);
  }

  /** Per packet, the code does what it should exactly when the packet does not lose a header prefix. */
  lemma ExtractExact(ms: seq<Text>, f: Text, data: Text, beyond: Text)
    requires Aligned(ms, f, data)
    ensures Extract(Pending(f), data, beyond) == Ideal(ms, f + data) <==> !LosesPrefix(ms, f, data)
  {
    if f == [] {
      assert f + data == data;
      ExtractAtBoundary(ms, data, beyond);
    } else if LosesPrefix(ms, f, data) {
      ExtractLoses(ms, f, data, beyond);
    } else if |f| + |data| < |ms[0]| {
      ExtractMore(ms, f, data, beyond);
    } else {
      ExtractInside(ms, f, data, beyond);
    }
  }
}
