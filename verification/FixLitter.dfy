/** Packets that hold bytes between messages, and the memory behind a packet: what the count in buf_remaining does. */
module FixLitter {
  import opened Bits
  import opened Bytes
  import opened Horspool
  import opened Options
  import opened FixParser
  import opened FixCodec
  import opened FixStream

  // ----- The count

  /** A round of the loop: where it starts, the count before it, the length of its window, the bytes consumed. */
  datatype Visit = Visit(at: nat, count: nat, len: nat, consumed: nat)

  /** The rounds that the loop makes, in order. */
  function Visits(mem: Text, curr: nat, remaining: nat): seq<Visit>
    requires curr <= |mem| && remaining > 0
    decreases remaining
  {
    match RoundOf(mem[curr..], remaining)
    case Stuck => []
    case Round(next, o, _) =>
      match next
      case None => [Visit(curr, remaining, remaining, o.consumed)]
      case Some(n) => [Visit(curr, remaining, n, o.consumed)] + Visits(mem, curr + n, remaining - o.consumed)
  }

  /** The bytes of windows that their parses did not consume: what lies between messages. */
  function Unused(vs: seq<Visit>): int {
    if vs == [] then 0 else vs[0].len - vs[0].consumed + Unused(vs[1..])
  }

  lemma UnusedCons(v: Visit, vs: seq<Visit>)
    ensures Unused([v] + vs) == v.len - v.consumed + Unused(vs)
  {
    assert ([v] + vs)[1..] == vs;
  }

  /**
   In every round the count and the position add up to where they started plus the bytes left unused so
   far: buf_remaining exceeds what is left of the packet by exactly the garbage passed.
   */
  lemma {:induction false} CountExcess(mem: Text, curr: nat, remaining: nat, k: nat)
    requires curr <= |mem| && remaining > 0 && k < |Visits(mem, curr, remaining)|
    ensures var vs := Visits(mem, curr, remaining);
      vs[k].at + vs[k].count == curr + remaining + Unused(vs[..k])
    decreases remaining
  {
    hide RoundOf;
    var vs, r := Visits(mem, curr, remaining), RoundOf(mem[curr..], remaining);
    if k == 0 {
      assert vs[..0] == [];
    } else {
      var n, left := r.next.value, remaining - r.outcome.consumed;
      var rest := Visits(mem, curr + n, left);
      CountExcess(mem, curr + n, left, k - 1);
      assert vs == [vs[0]] + rest && vs[..k] == [vs[0]] + rest[..k - 1];
      UnusedCons(vs[0], rest[..k - 1]);
    }
  }

  // ----- The memory behind the packet

  lemma NextStays(w: Text, more: Text, remaining: nat)
    requires NextIn(w, remaining).Sought?
    ensures NextIn(w + more, remaining) == NextIn(w, remaining)
  {
    hide Trace;
    if remaining > |PATTERN| {
      if |w| >= |PATTERN| {
        assert Behind(w + more) == Behind(w) + more;
        SearchStays(PATTERN, Behind(w), more, remaining - |PATTERN|);
      } else {
        NoMemory(remaining - |PATTERN|);
      }
    }
  }

  lemma NoMemory(length: nat)
    ensures SearchIn(PATTERN, [], length).Sought? ==> length < |PATTERN|
  {
  }

  lemma CopyStays(mem: Text, more: Text, len: nat)
    requires CopyIn(mem, len).Some?
    ensures CopyIn(mem + more, len) == CopyIn(mem, len)
  {
    hide StrNCpy;
    var all := mem + more;
    if len <= |mem| {
      assert all[..len] == mem[..len];
    } else {
      assert NUL in all by { var i :| 0 <= i < |mem| && mem[i] == NUL; assert all[i] == NUL; }
      if len <= |all| {
        CopyToNul(mem, more[..len - |mem|], Zeros(len - |mem|));
        assert all[..len] == mem + more[..len - |mem|];
      } else {
        CopyToNul(mem, more + Zeros(len - |all|), Zeros(len - |mem|));
        assert all + Zeros(len - |all|) == mem + (more + Zeros(len - |all|));
      }
    }
  }

  /** strncpy does not look behind the first NUL. */
  lemma {:induction false} CopyToNul(mem: Text, a: Text, b: Text)
    requires NUL in mem && |a| == |b|
    ensures StrNCpy(mem + a) == StrNCpy(mem + b)
  {
    assert mem != [];
    assert (mem + a)[1..] == mem[1..] + a && (mem + b)[1..] == mem[1..] + b;
    if mem[0] != NUL { CopyToNul(mem[1..], a, b); }
  }

  lemma RoundStays(w: Text, more: Text, remaining: nat)
    requires RoundOf(w, remaining).Round?
    ensures RoundOf(w + more, remaining) == RoundOf(w, remaining)
  {
    hide NextIn, ParseIn, CopyIn;
    NextStays(w, more, remaining);
    var next := NextIn(w, remaining).at;
    var len := if next.None? then remaining else next.value;
    ParseStays(w, more, len, DEFAULT);
    if RoundOf(w, remaining).stored.Some? { CopyStays(w, more, len); }
  }

  /** A loop that never reads behind its memory does not notice what is there. */
  lemma {:induction false} MessagesStay(frag: Option<Text>, mem: Text, more: Text, size: nat, curr: nat, remaining: nat)
    requires curr <= |mem| && 0 < remaining <= size <= |mem|
    requires Messages(frag, mem, size, curr, remaining).Extracted?
    ensures Messages(frag, mem + more, size, curr, remaining) == Messages(frag, mem, size, curr, remaining)
    decreases remaining
  {
    hide RoundOf, Tail, Completed;
    var all, w := mem + more, mem[curr..];
    var r := RoundOf(w, remaining);
    assert all[curr..] == w + more && all[..size] == mem[..size];
    RoundStays(w, more, remaining);
    LoopStep(frag, mem, size, curr, remaining, r);
    LoopStep(frag, all, size, curr, remaining, r);
    if r.next.Some? {
      MessagesStay(Kept(frag, r), mem, more, size, curr + r.next.value, remaining - r.outcome.consumed);
    }
  }

  /**
   What a packet leads to without a fault depends on the packet and on `beyond` alone; with nothing behind the
   packet, on the packet alone: no byte outside it is read.
   */
  lemma ReadsNoFurther(frag: Option<Text>, data: Text, beyond: Text, more: Text)
    requires Extract(frag, data, beyond).Extracted?
    ensures Extract(frag, data, beyond + more) == Extract(frag, data, beyond)
  {
    hide Messages, Lead, Find, MatchAt;
    var mem := data + beyond;
    assert data + (beyond + more) == mem + more;
    match Find(PATTERN, data)
    case None =>
    case Some(c) =>
      PatternFits(data, c);
      if c == 0 {
        MessagesStay(frag, mem, more, |data|, 0, |data|);
      } else {
        var e := Lead(frag, data, data[..c]);
        if e.Extracted? { MessagesStay(e.frag, mem, more, |data|, c, |data| - c); }
      }
  }

  /** With enough memory behind it, a round ends. */
  lemma RoundEnds(w: Text, remaining: nat)
    requires remaining <= |w| && remaining <= CAPACITY
    ensures RoundOf(w, remaining).Round?
  {
    hide Trace, StrNCpy, Parse;
    if remaining > |PATTERN| { SearchInSpec(PATTERN, Behind(w), remaining - |PATTERN|); }
    var next := NextIn(w, remaining).at;
    var len := if next.None? then remaining else next.value;
    ParseInside(w, len, DEFAULT);
  }

  lemma Square(a: nat, c: nat, n: nat)
    requires 0 < c <= a && n <= a
    ensures n + (a - c) * (a - c) <= a * a
  {
    SquareMono(a - c, a - 1);
    assert (a - 1) * (a - 1) == a * a - 2 * a + 1;
  }

  lemma SquareMono(b: nat, d: nat)
    requires b <= d
    ensures b * b <= d * d
  {
    MulMono(b, b, d);
    MulMono(d, b, d);
  }

  lemma {:induction false} LoopEnds(frag: Option<Text>, mem: Text, size: nat, curr: nat, remaining: nat)
    requires curr <= |mem| && 0 < remaining <= size <= |mem| && size <= CAPACITY
    requires curr + remaining * remaining <= |mem|
    ensures Messages(frag, mem, size, curr, remaining).Extracted?
    decreases remaining
  {
    hide RoundOf, StrNCpy;
    MulMono(remaining, 1, remaining);
    RoundEnds(mem[curr..], remaining);
    var r := RoundOf(mem[curr..], remaining);
    LoopStep(frag, mem, size, curr, remaining, r);
    if r.next.Some? {
      Square(remaining, r.outcome.consumed, r.next.value);
      LoopEnds(Kept(frag, r), mem, size, curr + r.next.value, remaining - r.outcome.consumed);
    }
  }

  /** A packet that fits a fragment never overruns one, and a bounded stretch of memory behind it is all it can read. */
  lemma NeverFaults(frag: Option<Text>, data: Text, beyond: Text)
    requires |data| <= CAPACITY && |beyond| >= |data| * |data|
    ensures Extract(frag, data, beyond).Extracted?
  {
    hide Messages, Find, MatchAt, StrNCpy, Parse;
    match Find(PATTERN, data)
    case None =>
    case Some(c) =>
      PatternFits(data, c);
      var left := |data| - c;
      SquareMono(left, |data|);
      if c == 0 {
        LoopEnds(frag, data + beyond, |data|, 0, |data|);
      } else {
        LoopEnds(Lead(frag, data, data[..c]).frag, data + beyond, |data|, c, left);
      }
  }

  // ----- Bytes between messages

  /** A message and the bytes after it, up to the next header or the end of the packet. */
  datatype Part = Part(msg: Text, junk: Text)

  function Laid(parts: seq<Part>): Text {
    if parts == [] then [] else parts[0].msg + parts[0].junk + Laid(parts[1..])
  }

  function Junk(parts: seq<Part>): nat {
    if parts == [] then 0 else |parts[0].junk| + Junk(parts[1..])
  }

  predicate EndsInSoh(m: Text) {
    m != [] && m[|m| - 1] == SOH
  }

  function Last(parts: seq<Part>): Part
    requires parts != []
  {
    parts[|parts| - 1]
  }

  /** The bytes between messages: those after the last one are no garbage. */
  function Between(parts: seq<Part>): nat
    requires parts != []
  {
    Junk(parts[..|parts| - 1])
  }

  function Reports(parts: seq<Part>): seq<Outcome> {
    if parts == [] then [] else [Parse(parts[0].msg, DEFAULT)] + Reports(parts[1..])
  }

  /** Whole messages, each with any bytes after it, whose headers are the only ones in the packet. */
  predicate Littered(parts: seq<Part>): (b: bool)
    ensures b ==> parts != []
  {
    && parts != [] && IsMessage(parts[0].msg)
    && NextHeader(Laid(parts)) == (if |parts| == 1 then None else Some(|parts[0].msg| + |parts[0].junk|))
    && (|parts| > 1 ==> Littered(parts[1..]))
  }

  /** The search from the last message, by a count too large by `excess`, finds no header and stays in the memory. */
  predicate Quiet(last: Part, excess: nat, beyond: Text) {
    NextIn(last.msg + last.junk + beyond, |last.msg + last.junk| + excess) == Sought(None)
  }

  lemma NextFinds(w: Text, d: Text, remaining: nat)
    requires d <= w && |d| <= remaining && NextHeader(d).Some?
    ensures NextIn(w, remaining) == Sought(NextHeader(d))
  {
    hide Find, SearchIn;
    var n := |d| - |PATTERN|;
    assert Behind(w)[..n] == d[|PATTERN|..];
    SearchFinds(PATTERN, Behind(w), remaining - |PATTERN|, n);
  }

  /** A round at a message, whatever the count claims besides: the message is reported and consumed. */
  lemma RoundAtMessage(m: Text, rest: Text, remaining: nat, next: Option<nat>)
    requires IsMessage(m) && |m| <= remaining && (next.Some? ==> |m| <= next.value)
    requires NextIn(m + rest, remaining) == Sought(next)
    ensures RoundOf(m + rest, remaining) == Round(next, Parse(m, DEFAULT), None)
    ensures Parse(m, DEFAULT).consumed == |m|
  {
    hide NextIn, Parse, ParseIn, IsMessage;
    WholeMessage(m);
    ParseMessageIn(m, rest, if next.None? then remaining else next.value, DEFAULT);
  }

  /** What is left of the loop when it comes to the last message, with the count that it has then. */
  ghost function AtLast(parts: seq<Part>, frag: Option<Text>, mem: Text, size: nat, excess: nat): Extracted
    requires parts != [] && |Laid([Last(parts)])| <= size <= |mem|
  {
    var last := |Laid([Last(parts)])|;
    var count := last + excess + Between(parts);
    if 0 < count <= size then Messages(frag, mem, size, size - last, count) else Fault
  }

  lemma LitterFacts(parts: seq<Part>)
    requires Littered(parts) && |parts| > 1
    ensures IsMessage(parts[0].msg) && Laid(parts) == parts[0].msg + parts[0].junk + Laid(parts[1..])
    ensures NextHeader(Laid(parts)) == Some(|parts[0].msg| + |parts[0].junk|)
    ensures |Laid(parts[1..])| > 0
  {
    hide NextHeader, IsMessage;
    StartsWithPattern(parts[1].msg);
  }

  /** One message of several: it is reported, and the loop comes to the next one. */
  lemma LitterStep(parts: seq<Part>, frag: Option<Text>, mem: Text, size: nat, curr: nat, remaining: nat, beyond: Text)
    requires Littered(parts) && |parts| > 1 && size == curr + |Laid(parts)| <= |mem|
    requires mem[curr..] == Laid(parts) + beyond && size - curr <= remaining <= size
    ensures var m, n := parts[0].msg, |parts[0].msg + parts[0].junk|;
      && curr + n < size == curr + n + |Laid(parts[1..])| && mem[curr + n..] == Laid(parts[1..]) + beyond
      && 0 < remaining - |m|
      && Messages(frag, mem, size, curr, remaining)
        == After([Parse(m, DEFAULT)], 0, Messages(frag, mem, size, curr + n, remaining - |m|))
  {
    hide NextHeader, NextIn, Parse, RoundOf, Messages, IsMessage, Littered, Laid;
    LitterFacts(parts);
    var m, x, w := parts[0].msg, parts[0].junk, mem[curr..];
    var n, rest := |m| + |x|, Laid(parts[1..]) + beyond;
    assert w == m + (x + rest);
    assert Laid(parts) <= w by { assert w[..|Laid(parts)|] == Laid(parts); }
    assert mem[curr + n..] == rest;
    NextFinds(w, Laid(parts), remaining);
    RoundAtMessage(m, x + rest, remaining, Some(n));
    LoopStep(frag, mem, size, curr, remaining, Round(Some(n), Parse(m, DEFAULT), None));
  }

  /** Every message but the last is reported, whatever lies behind the packet. */
  lemma {:induction false} LitterLoop(parts: seq<Part>, frag: Option<Text>, mem: Text, size: nat, curr: nat,
      remaining: nat, excess: nat, beyond: Text)
    requires Littered(parts) && curr < size == curr + |Laid(parts)| <= |mem| && mem[curr..] == Laid(parts) + beyond
    requires 0 < remaining <= size && remaining == size - curr + excess
    ensures 0 < |Laid([Last(parts)])| <= |Laid(parts)| && |Laid([Last(parts)])| + excess + Between(parts) <= size
    ensures mem[size - |Laid([Last(parts)])|..] == Laid([Last(parts)]) + beyond
    ensures Messages(frag, mem, size, curr, remaining)
      == After(Reports(parts[..|parts| - 1]), 0, AtLast(parts, frag, mem, size, excess))
    decreases |parts|
  {
    hide NextHeader, Parse, Messages, IsMessage, Junk, Reports, Laid, Between;
    var done := Reports(parts[..|parts| - 1]);
    if |parts| == 1 {
      LastOfOne(parts);
      AfterNothing(Messages(frag, mem, size, curr, remaining));
    } else {
      var m, x, tail := parts[0].msg, parts[0].junk, parts[1..];
      LitterStep(parts, frag, mem, size, curr, remaining, beyond);
      LitterLoop(tail, frag, mem, size, curr + |m + x|, remaining - |m|, excess + |x|, beyond);
      LastOfMany(parts);
      AfterTwice([Parse(m, DEFAULT)], Reports(tail[..|tail| - 1]), AtLast(tail, frag, mem, size, excess + |x|));
    }
  }

  lemma LastOfOne(parts: seq<Part>)
    requires |parts| == 1
    ensures [Last(parts)] == parts && Between(parts) == 0 && Reports(parts[..0]) == []
  {
    assert parts[..0] == [];
  }

  lemma LastOfMany(parts: seq<Part>)
    requires |parts| > 1
    ensures var tail := parts[1..];
      && Last(tail) == Last(parts) && Between(parts) == |parts[0].junk| + Between(tail)
      && Reports(parts[..|parts| - 1]) == [Parse(parts[0].msg, DEFAULT)] + Reports(tail[..|tail| - 1])
      && |Laid(parts)| == |parts[0].msg + parts[0].junk| + |Laid(tail)|
  {
    hide Parse;
    assert parts[..|parts| - 1][1..] == parts[1..][..|parts| - 2];
  }

  lemma JunkSplit(parts: seq<Part>)
    requires |parts| > 1
    ensures Junk(parts[..|parts| - 1]) == |parts[0].junk| + Junk(parts[1..][..|parts| - 2])
    ensures parts[1..][|parts| - 2] == parts[|parts| - 1]
  {
    assert parts[..|parts| - 1][1..] == parts[1..][..|parts| - 2];
  }

  lemma {:induction false} JunkLast(parts: seq<Part>)
    requires parts != []
    ensures Junk(parts) == Junk(parts[..|parts| - 1]) + |parts[|parts| - 1].junk|
  {
    if |parts| == 1 {
      assert parts[1..] == [] && parts[..0] == [];
    } else {
      JunkLast(parts[1..]);
      JunkSplit(parts);
    }
  }

  lemma {:induction false} ReportsLast(parts: seq<Part>)
    requires parts != []
    ensures Reports(parts) == Reports(parts[..|parts| - 1]) + [Parse(parts[|parts| - 1].msg, DEFAULT)]
  {
    hide Parse;
    var n := |parts| - 1;
    if n == 0 {
      assert parts[..0] == [] && parts[1..] == [] && Reports([]) == [];
    } else {
      ReportsLast(parts[1..]);
      assert parts[..n][1..] == parts[1..][..n - 1];
    }
  }

  lemma {:induction false} LastLittered(parts: seq<Part>)
    requires Littered(parts)
    ensures var last := parts[|parts| - 1]; IsMessage(last.msg) && NextHeader(last.msg + last.junk) == None
  {
    hide NextHeader, IsMessage;
    if |parts| == 1 {
      assert parts[1..] == [] && Laid(parts) == parts[0].msg + parts[0].junk + [];
      assert Laid(parts) == parts[0].msg + parts[0].junk;
    } else {
      LastLittered(parts[1..]);
    }
  }

  /** The packet up to its last message; what the last message leads to depends on the memory behind the packet. */
  lemma LitterStart(parts: seq<Part>, frag: Option<Text>, beyond: Text)
    requires Littered(parts)
    ensures var data, n, last := Laid(parts), |parts| - 1, parts[|parts| - 1];
      var k, j := |last.msg + last.junk|, Junk(parts[..n]);
      && 0 < k && k + j <= |data|
      && (data + beyond)[|data| - k..] == last.msg + last.junk + beyond
      && Extract(frag, data, beyond)
        == After(Reports(parts[..n]), 0, Messages(frag, data + beyond, |data|, |data| - k, k + j))
  {
    hide NextHeader, NextIn, Parse, RoundOf, Messages, IsMessage;
    var data, m, last := Laid(parts), parts[0].msg, parts[|parts| - 1];
    StartsWithPattern(m);
    assert data[0..|PATTERN|] == m[..|PATTERN|];
    assert MatchAt(PATTERN, data, 0);
    assert (data + beyond)[0..] == data + beyond;
    LitterLoop(parts, frag, data + beyond, |data|, 0, |data|, 0, beyond);
    assert [last][1..] == [] && Laid([last]) == last.msg + last.junk + [] == last.msg + last.junk;
  }

  /** The last message, when the search from it finds nothing: it is reported, and the count decides what is stored. */
  lemma LastQuiet(last: Part, frag: Option<Text>, mem: Text, size: nat, excess: nat, beyond: Text)
    requires IsMessage(last.msg) && Quiet(last, excess, beyond)
    requires var k := |last.msg + last.junk|;
      k <= size <= |mem| && 0 < k + excess <= size && mem[size - k..] == last.msg + last.junk + beyond
    ensures var k := |last.msg + last.junk|;
      Messages(frag, mem, size, size - k, k + excess)
        == After([Parse(last.msg, DEFAULT)], 0, Tail(frag, mem[..size], |last.junk| + excess))
  {
    hide NextIn, Parse, RoundOf, Messages, IsMessage, Tail;
    var m, k := last.msg, |last.msg + last.junk|;
    assert mem[size - k..] == m + (last.junk + beyond);
    RoundAtMessage(m, last.junk + beyond, k + excess, None);
    LoopStep(frag, mem, size, size - k, k + excess, Round(None, Parse(m, DEFAULT), None));
  }

  /**
   A packet of messages with bytes between them: every message is reported, and then as many bytes from the
   end of the packet as there was junk become the fragment, whatever they are.
   */
  lemma LitteredPacket(parts: seq<Part>, frag: Option<Text>, beyond: Text)
    requires Littered(parts) && Quiet(Last(parts), Between(parts), beyond)
    ensures var data, g := Laid(parts), Junk(parts);
      && g <= |data|
      && Extract(frag, data, beyond) ==
        if g == 0 then Extracted(frag, Reports(parts), 0)
        else if g > CAPACITY then Fault
        else Extracted(Some(StrNCpy(data[|data| - g..])), Reports(parts), 0)
  {
    hide Quiet, Parse, Messages, IsMessage, StrNCpy, Extract, Littered, Reports, Tail, After, Laid;
    var data, n, last, g := Laid(parts), |parts| - 1, Last(parts), Junk(parts);
    LastLittered(parts);
    LitterStart(parts, frag, beyond);
    JunkLast(parts);
    LastQuiet(last, frag, data + beyond, |data|, Between(parts), beyond);
    ReportsLast(parts);
    assert (data + beyond)[..|data|] == data;
    AfterTwice(Reports(parts[..n]), [Parse(last.msg, DEFAULT)], Tail(frag, data, g));
    TailDone(frag, data, g, Reports(parts));
  }

  // ----- Exactly when

  /** With nothing behind the packet, a search that is not quiet reads there. */
  lemma LoudAlone(last: Part, excess: nat)
    requires IsMessage(last.msg) && NextHeader(last.msg + last.junk) == None && !Quiet(last, excess, [])
    ensures RoundOf(last.msg + last.junk, |last.msg + last.junk| + excess) == Stuck
  {
    hide NextIn, ParseIn, CopyIn, NextHeader, IsMessage;
    StartsWithPattern(last.msg);
    var d := last.msg + last.junk;
    assert d + [] == d;
    NoneInside(d, |d| + excess);
  }

  /** In memory without another header the search finds none. */
  lemma NoneInside(d: Text, remaining: nat)
    requires |d| > |PATTERN| && NextHeader(d) == None
    ensures NextIn(d, remaining) == Past || NextIn(d, remaining) == Sought(None)
  {
    hide MatchAt, FindFrom, Trace;
    if remaining > |PATTERN| { SearchInSpec(PATTERN, Behind(d), remaining - |PATTERN|); }
  }

  lemma StuckFaults(frag: Option<Text>, mem: Text, size: nat, curr: nat, remaining: nat)
    requires curr <= |mem| && 0 < remaining <= size <= |mem| && RoundOf(mem[curr..], remaining) == Stuck
    ensures Messages(frag, mem, size, curr, remaining) == Fault
  {
  }

  /** With nothing behind it, a packet goes without a fault exactly when its last search is quiet and its junk fits. */
  lemma AloneExact(parts: seq<Part>, frag: Option<Text>)
    requires Littered(parts)
    ensures Extract(frag, Laid(parts), []) != Fault
      <==> Quiet(Last(parts), Between(parts), []) && Junk(parts) <= CAPACITY
  {
    hide Quiet, Messages, IsMessage, StrNCpy, Extract, Littered, RoundOf, NextHeader, Reports;
    var data, n, last := Laid(parts), |parts| - 1, parts[|parts| - 1];
    var k, j := |last.msg + last.junk|, Junk(parts[..n]);
    if Quiet(last, j, []) {
      LitteredPacket(parts, frag, []);
    } else {
      LastLittered(parts);
      LitterStart(parts, frag, []);
      LoudAlone(last, j);
      assert (data + [])[|data| - k..] == last.msg + last.junk;
      StuckFaults(frag, data + [], |data|, |data| - k, k + j);
    }
  }

  /** As many bytes between messages as a header has lead the loop behind the packet, wherever they are. */
  lemma ReadsBehind(parts: seq<Part>, frag: Option<Text>)
    requires Littered(parts) && Between(parts) >= |PATTERN|
    ensures Extract(frag, Laid(parts), []) == Fault
  {
    hide Quiet, IsMessage, Extract, Littered, NextHeader, Laid;
    var last := parts[|parts| - 1];
    var excess := Junk(parts[..|parts| - 1]);
    LastLittered(parts);
    StartsWithPattern(last.msg);
    AloneExact(parts, frag);
    QuietAlone(last, excess);
    StopBound(PATTERN, (last.msg + last.junk)[|PATTERN|..], |PATTERN| - 1);
  }

  /** A piece of a message is stored, and written past the fragment exactly when it is longer than that. */
  lemma PieceFaultsIff(m: Text, k: nat, frag: Option<Text>, beyond: Text)
    requires IsMessage(m) && |PATTERN| <= k < |m| && forall p: int :: p > 0 ==> !MatchAt(PATTERN, m, p)
    ensures Extract(frag, m[..k], beyond) == Fault <==> k > 4088
  {
    hide Parse, StrNCpy, RoundOf, Messages, IsMessage, NextHeader, FindFrom, MatchAt;
    var d := m[..k];
    StartsWithPattern(m);
    forall p: int | p > 0 ensures !MatchAt(PATTERN, d, p) {
      MatchInTake(PATTERN, m, k, p);
    }
    MatchInTake(PATTERN, m, k, 0);
    NoHeaderFound(d);
    PrefixTooShort(m, k, DEFAULT);
    var mem := d + beyond;
    assert mem[0..] == mem && d <= mem by { assert mem[..k] == d; }
    RoundInside(mem, d);
    if k > CAPACITY {
      StuckFaults(frag, mem, k, 0, k);
    } else {
      LoopStep(frag, mem, k, 0, k, Round(None, Parse(d, DEFAULT), Some(StrNCpy(d))));
    }
  }

  /** While the count is right the last search is quiet. */
  lemma QuietWithoutJunk(last: Part, beyond: Text)
    requires IsMessage(last.msg) && NextHeader(last.msg + last.junk) == None
    ensures Quiet(last, 0, beyond)
  {
    hide NextIn, NextHeader, IsMessage;
    StartsWithPattern(last.msg);
    var d := last.msg + last.junk;
    assert d <= d + beyond by { assert (d + beyond)[..|d|] == d; }
    NextInside(d + beyond, d);
  }

  /** A loop that begins at a header and stores no message leaves a fragment that begins with one. */
  ghost predicate Phantom(e: Extracted) {
    match e
    case Fault => true
    case Extracted(frag, done, _) => done != [] || (frag.Some? && AtHeader(frag.value))
  }

  lemma CopyKeepsHeader(w: Text, len: nat)
    requires PATTERN <= w && |PATTERN| <= len && CopyIn(w, len).Some?
    ensures PATTERN <= CopyIn(w, len).value
  {
    var s := if len <= |w| then w[..len] else w + Zeros(len - |w|);
    assert PATTERN <= s by { assert s[..|PATTERN|] == w[..|PATTERN|]; }
    CopyPrefix(PATTERN, s);
  }

  lemma {:induction false} CopyPrefix(p: Text, s: Text)
    requires p <= s && NUL !in p
    ensures p <= StrNCpy(s)
  {
    if p != [] {
      assert s[0] == p[0] && p == [p[0]] + p[1..] && p[0] in p;
      assert p[1..] <= s[1..] by { assert s[..|p|] == p; assert s[1..][..|p| - 1] == p[1..]; }
      CopyPrefix(p[1..], s[1..]);
      var t := StrNCpy(s[1..]);
      assert StrNCpy(s) == [s[0]] + t && t[..|p| - 1] == p[1..];
      assert ([s[0]] + t)[..|p|] == [p[0]] + p[1..];
    }
  }

  lemma RoundStored(w: Text, remaining: nat)
    requires PATTERN <= w && |PATTERN| <= remaining && RoundOf(w, remaining).Round?
    ensures var r := RoundOf(w, remaining);
      && (r.stored.Some? ==> PATTERN <= r.stored.value)
      && (r.stored.Some? ==> r.outcome.consumed == if r.next.None? then remaining else r.next.value)
  {
    hide NextIn, ParseIn, StrNCpy;
    var r := RoundOf(w, remaining);
    var len := if r.next.None? then remaining else r.next.value;
    if r.stored.Some? {
      CopyKeepsHeader(w, len);
      ShortConsumesAll(w, len);
    }
  }

  lemma ShortParse(buf: Text)
    requires Parse(buf, DEFAULT).result == EMESSAGETOOSHORT
    ensures Parse(buf, DEFAULT).consumed == |buf|
  {
    hide ScanNumber, Sum, Supplied, Report, FixType, ParseFields;
    match Frame(buf)
    case Framed(_, bodyStart, msgLen) => FieldsNotShort(buf[..bodyStart + msgLen + CHECK_SUM_LEN], bodyStart);
    case _ =>
  }

  lemma FramedNotShort(mem: Text, fixType: int, bodyStart: nat, msgLen: nat)
    requires ParseFramedIn(mem, fixType, bodyStart, msgLen, DEFAULT).Parsed?
    ensures ParseFramedIn(mem, fixType, bodyStart, msgLen, DEFAULT).outcome.result != EMESSAGETOOSHORT
  {
    hide Sum, Supplied, Report, ParseFields;
    var t := bodyStart + msgLen + CHECK_SUM_LEN;
    if t <= |mem| { FieldsNotShort(mem[..t], bodyStart); }
  }

  lemma ShortConsumesAll(mem: Text, len: nat)
    requires ParseIn(mem, len, DEFAULT).Parsed? && ParseIn(mem, len, DEFAULT).outcome.result == EMESSAGETOOSHORT
    ensures ParseIn(mem, len, DEFAULT).outcome.consumed == len
  {
    hide ScanNumber, ParseFramedIn, Parse;
    if len <= |mem| {
      ParseInside(mem, len, DEFAULT);
      ShortParse(mem[..len]);
    } else if HEADER_LEN <= |mem| {
      match ScanNumber(mem, HEADER_LEN, SOH, 0)
      case Stopped(n, next) =>
        if ParseFramedIn(mem, FixType(mem), next, n, DEFAULT).Parsed? { FramedNotShort(mem, FixType(mem), next, n); }
      case _ =>
    }
  }

  lemma NextStarts(w: Text, remaining: nat)
    ensures var r := NextIn(w, remaining); r.Sought? && r.at.Some? ==> PATTERN <= w[r.at.value..]
  {
    hide Trace;
    if remaining > |PATTERN| {
      SearchInSpec(PATTERN, Behind(w), remaining - |PATTERN|);
      match NextIn(w, remaining)
      case Sought(Some(n)) =>
        var b, p := Behind(w), n - |PATTERN|;
        assert b[p..p + |PATTERN|] == PATTERN && w[n..] == b[p..];
        assert w[n..][..|PATTERN|] == b[p..p + |PATTERN|];
      case _ =>
    }
  }

  /** w begins at a header. */
  predicate AtHeader(w: Text) {
    PATTERN <= w
  }

  lemma PhantomRound(w: Text, remaining: nat)
    requires AtHeader(w) && |PATTERN| <= remaining && RoundOf(w, remaining).Round?
    ensures var r := RoundOf(w, remaining);
      && (r.stored.Some? ==> AtHeader(r.stored.value))
      && (r.stored.Some? && r.next.None? ==> r.outcome.consumed == remaining)
      && (r.next.Some? ==>
            r.next.value <= |w| && AtHeader(w[r.next.value..]) && |PATTERN| <= remaining - r.outcome.consumed)
  {
    hide RoundOf, NextIn;
    RoundStored(w, remaining);
    NextOfRound(w, remaining);
    NextStarts(w, remaining);
    RoundBounds(w, remaining);
  }

  lemma RoundBounds(w: Text, remaining: nat)
    ensures var r := RoundOf(w, remaining);
      r.Round? && r.next.Some? ==> r.outcome.consumed <= r.next.value && r.next.value + |PATTERN| <= remaining
  {
    hide NextIn, ParseIn, CopyIn;
  }

  lemma {:induction false} PhantomLoop(frag: Option<Text>, mem: Text, size: nat, curr: nat, remaining: nat)
    requires curr <= |mem| && |PATTERN| <= remaining <= size <= |mem| && AtHeader(mem[curr..])
    ensures Phantom(Messages(frag, mem, size, curr, remaining))
    decreases remaining
  {
    hide RoundOf, Messages, Phantom, Tail, After, Kept, Completed, AtHeader;
    var r := RoundOf(mem[curr..], remaining);
    PhantomFault();
    if r.Stuck? {
      StuckFaults(frag, mem, size, curr, remaining);
    } else {
      PhantomRound(mem[curr..], remaining);
      LoopStep(frag, mem, size, curr, remaining, r);
      if r.next.Some? {
        var at, left := curr + r.next.value, remaining - r.outcome.consumed;
        DropTwice(mem, curr, r.next.value);
        PhantomLoop(Kept(frag, r), mem, size, at, left);
        PhantomAfter(Completed(r), Messages(Kept(frag, r), mem, size, at, left));
      } else {
        PhantomEnd(r, frag, mem[..size], remaining);
      }
    }
  }

  lemma DropTwice(mem: Text, i: nat, n: nat)
    requires i + n <= |mem|
    ensures mem[i..][n..] == mem[i + n..]
  {
  }

  lemma PhantomFault()
    ensures Phantom(Fault)
  {
  }

  lemma PhantomAfter(done: seq<Outcome>, e: Extracted)
    requires Phantom(e)
    ensures Phantom(After(done, 0, e))
  {
  }

  lemma PhantomEnd(r: Round, frag: Option<Text>, data: Text, remaining: nat)
    requires r.Round? && r.outcome.consumed <= remaining <= |data|
    requires r.stored.Some? ==> AtHeader(r.stored.value) && r.outcome.consumed == remaining
    ensures Phantom(After(Completed(r), 0, Tail(Kept(frag, r), data, remaining - r.outcome.consumed)))
  {
    hide StrNCpy;
  }

  lemma NextOfRound(w: Text, remaining: nat)
    requires RoundOf(w, remaining).Round?
    ensures NextIn(w, remaining) == Sought(RoundOf(w, remaining).next)
  {
    hide NextIn, ParseIn, CopyIn;
  }

  /** No header begins inside a message that ends in SOH, not even one that straddles its end. */
  lemma NoStraddle(last: Part, beyond: Text, n: nat)
    requires |last.msg| >= |PATTERN| && EndsInSoh(last.msg) && NextHeader(last.msg + last.junk) == None
    requires |PATTERN| <= n < |last.msg|
    ensures !(PATTERN <= (last.msg + last.junk + beyond)[n..])
  {
    hide FindFrom;
    var m, d := last.msg, last.msg + last.junk;
    var w := d + beyond;
    if n + |PATTERN| <= |m| {
      assert !MatchAt(PATTERN, d[|PATTERN|..], n - |PATTERN|);
      assert d[|PATTERN|..][n - |PATTERN|..n] == w[n..n + |PATTERN|] == w[n..][..|PATTERN|];
    } else {
      assert w[n..][|m| - 1 - n] == w[|m| - 1] == SOH != PATTERN[|m| - 1 - n];
    }
  }

  /** A header that the last search finds begins behind the message, since that ends in SOH. */
  lemma FoundBehind(last: Part, remaining: nat, beyond: Text)
    requires IsMessage(last.msg) && EndsInSoh(last.msg) && NextHeader(last.msg + last.junk) == None
    ensures var r := NextIn(last.msg + last.junk + beyond, remaining);
      r.Sought? && r.at.Some? ==> |last.msg| <= r.at.value
  {
    hide IsMessage, NextIn, NextHeader;
    var w := last.msg + last.junk + beyond;
    StartsWithPattern(last.msg);
    NextStarts(w, remaining);
    var r := NextIn(w, remaining);
    if r.Sought? && r.at.Some? && r.at.value < |last.msg| { NoStraddle(last, beyond, r.at.value); }
  }

  /**
   Every message is reported, whatever lies behind the packet: the result is a fault, or begins with all of them.
   When the last search finds a header behind the packet, the loop goes on there.
   */
  lemma AllReported(parts: seq<Part>, frag: Option<Text>, beyond: Text)
    requires Littered(parts) && EndsInSoh(Last(parts).msg)
    ensures var e := Extract(frag, Laid(parts), beyond);
      e.Extracted? ==> Reports(parts) <= e.done
    ensures !Quiet(Last(parts), Between(parts), beyond) ==>
      exists e :: Phantom(e) && Extract(frag, Laid(parts), beyond) == After(Reports(parts), 0, e)
  {
    hide Quiet, Parse, Messages, IsMessage, StrNCpy, Extract, Littered, RoundOf, NextIn, NextHeader, Phantom;
    var data, n, last := Laid(parts), |parts| - 1, parts[|parts| - 1];
    var k, j := |last.msg + last.junk|, Junk(parts[..n]);
    if Quiet(last, j, beyond) {
      LitteredPacket(parts, frag, beyond);
    } else {
      LastLittered(parts);
      LitterStart(parts, frag, beyond);
      ReportsLast(parts);
      var e := LastLoud(last, frag, data + beyond, |data|, j, beyond);
      AfterTwice(Reports(parts[..n]), [Parse(last.msg, DEFAULT)], e);
    }
  }

  lemma LastLoud(last: Part, frag: Option<Text>, mem: Text, size: nat, excess: nat, beyond: Text) returns (e: Extracted)
    requires IsMessage(last.msg) && EndsInSoh(last.msg) && NextHeader(last.msg + last.junk) == None
    requires !Quiet(last, excess, beyond)
    requires var k := |last.msg + last.junk|;
      k <= size <= |mem| && 0 < k + excess <= size && mem[size - k..] == last.msg + last.junk + beyond
    ensures var k := |last.msg + last.junk|;
      Phantom(e) && Messages(frag, mem, size, size - k, k + excess) == After([Parse(last.msg, DEFAULT)], 0, e)
  {
    hide Parse, Messages, IsMessage, RoundOf, NextIn, NextHeader;
    var m, k := last.msg, |last.msg + last.junk|;
    var w, rest := mem[size - k..], last.junk + beyond;
    assert w == m + rest;
    FoundBehind(last, k + excess, beyond);
    NextStarts(w, k + excess);
    match NextIn(w, k + excess)
    case Past =>
      PastIsStuck(w, k + excess);
      StuckFaults(frag, mem, size, size - k, k + excess);
      e := Fault;
    case Sought(next) =>
      NextFits(w, k + excess);
      RoundAtMessage(m, rest, k + excess, next);
      LoopStep(frag, mem, size, size - k, k + excess, Round(next, Parse(m, DEFAULT), None));
      var at := size - k + next.value;
      assert w[next.value..] == mem[at..];
      e := Messages(frag, mem, size, at, k + excess - |m|);
      PhantomLoop(frag, mem, size, at, k + excess - |m|);
  }

  lemma PastIsStuck(w: Text, remaining: nat)
    requires NextIn(w, remaining).Past?
    ensures RoundOf(w, remaining) == Stuck
  {
  }

  lemma NextFits(w: Text, remaining: nat)
    ensures var r := NextIn(w, remaining);
      r.Sought? && r.at.Some? ==> r.at.value + |PATTERN| <= remaining
  {
    hide SearchIn;
  }

  /**
   Parses and fragment are right exactly when no bytes lie between messages, and those behind the last one fit
   a fragment and survive the copy into it.
   */
  lemma RightIffNoJunk(parts: seq<Part>, beyond: Text)
    requires Littered(parts) && EndsInSoh(Last(parts).msg)
    ensures var tail := Last(parts).junk;
      Extract(None, Laid(parts), beyond) == Extracted(Pending(tail), Reports(parts), 0)
      <==> Between(parts) == 0 && |tail| <= CAPACITY && StrNCpy(tail) == tail
  {
    hide Extract, Parse, Quiet, StrNCpy, Littered, Reports, NextHeader, IsMessage;
    var data, last := Laid(parts), parts[|parts| - 1];
    var tail, j := last.junk, Junk(parts[..|parts| - 1]);
    LastLittered(parts);
    JunkLast(parts);
    if j == 0 { QuietWithoutJunk(last, beyond); }
    if Quiet(last, j, beyond) {
      LitteredPacket(parts, None, beyond);
      if j == 0 {
        LaidLast(parts);
        StrNCpyCopies([]);
      }
    } else {
      AllReported(parts, None, beyond);
      var e :| Phantom(e) && Extract(None, data, beyond) == After(Reports(parts), 0, e);
      TailIsNoHeader(last);
      if e.Extracted? { assert e.done != [] ==> Reports(parts) + e.done != Reports(parts); }
    }
  }

  lemma TailIsNoHeader(last: Part)
    requires IsMessage(last.msg) && NextHeader(last.msg + last.junk) == None
    ensures !(PATTERN <= last.junk)
  {
    hide FindFrom, IsMessage;
    StartsWithPattern(last.msg);
    var d, p := last.msg + last.junk, |last.msg| - |PATTERN|;
    if |PATTERN| <= |last.junk| {
      assert !MatchAt(PATTERN, d[|PATTERN|..], p);
      assert d[|PATTERN|..][p..p + |PATTERN|] == last.junk[..|PATTERN|];
    }
  }

  lemma {:induction false} LaidLast(parts: seq<Part>)
    requires parts != []
    ensures var tail := parts[|parts| - 1].junk;
      |tail| <= |Laid(parts)| && Laid(parts)[|Laid(parts)| - |tail|..] == tail
  {
    if |parts| == 1 {
      assert parts[1..] == [];
      assert Laid(parts) == parts[0].msg + parts[0].junk + [];
    } else {
      LaidLast(parts[1..]);
      var rest, tail := Laid(parts[1..]), parts[|parts| - 1].junk;
      assert Laid(parts) == parts[0].msg + parts[0].junk + rest;
      assert Laid(parts)[|Laid(parts)| - |tail|..] == rest[|rest| - |tail|..];
    }
  }

  /** Enough memory without a header behind the packet keeps the last search quiet. */
  lemma QuietBehind(last: Part, excess: nat, beyond: Text)
    requires excess <= |beyond| && |last.msg| >= |PATTERN|
    requires forall q: int :: q > 0 ==> !MatchAt(PATTERN, last.msg + last.junk + beyond[..excess], q)
    ensures Quiet(last, excess, beyond)
  {
    hide MatchAt, SearchIn;
    var d, w := last.msg + last.junk + beyond[..excess], last.msg + last.junk + beyond;
    assert d <= w by { assert w[..|d|] == d; }
    NoHeaderFound(d);
    NextInside(w, d);
  }

  /**
   With nothing behind the packet, the last search stays inside it exactly when its windows skip over the end
   as far as the count claims bytes.
   */
  lemma QuietAlone(last: Part, excess: nat)
    requires |last.msg + last.junk| > |PATTERN| && NextHeader(last.msg + last.junk) == None
    ensures var rest := (last.msg + last.junk)[|PATTERN|..];
      Quiet(last, excess, []) <==>
        |rest| + excess < |PATTERN| || |rest| + excess <= StopAt(PATTERN, rest, |PATTERN| - 1)
  {
    hide MatchAt, FindFrom, Trace, StopAt;
    var d := last.msg + last.junk;
    var rest := d[|PATTERN|..];
    assert last.msg + last.junk + [] == d && Behind(d) == rest;
    StopExact(PATTERN, rest, |PATTERN| - 1, |rest| + excess);
  }

  lemma NoHeaderFound(d: Text)
    requires |d| >= |PATTERN| && forall q: int :: q > 0 ==> !MatchAt(PATTERN, d, q)
    ensures NextHeader(d) == None
  {
    hide FindFrom, MatchAt;
    if |d| > |PATTERN| {
      forall q: int | q >= 0 ensures !MatchAt(PATTERN, d[|PATTERN|..], q) {
        MatchInSuffix(d, |PATTERN|, q);
      }
    }
  }

  // ----- It happens

  /** No header starts in a clean message that ends in SOH, or in bytes without an '8' after it. */
  lemma NoHeaderInside(m: Text, x: Text, rest: Text, p: int)
    requires Clean(m) && m[|m| - 1] == SOH && PATTERN[0] !in x && 0 < p < |m + x|
    ensures !MatchAt(PATTERN, m + x + rest, p)
  {
    hide IsMessage;
    var d := m + x + rest;
    if p + |PATTERN| <= |m| {
      assert d[p..p + |PATTERN|] == m[p..p + |PATTERN|];
      assert !MatchAt(PATTERN, m, p);
    } else if p < |m| {
      var k := |m| - 1 - p;
      MatchByte(PATTERN, d, p, k);
      assert PATTERN[k] != SOH;
    } else {
      MatchByte(PATTERN, d, p, 0);
      assert d[p] == x[p - |m|];
    }
  }

  /** One byte between two messages is enough: both are reported, and the last byte becomes a fragment. */
  lemma LitterHappens(m: Text, x: Text, m': Text, beyond: Text)
    requires Clean(m) && Clean(m') && m[|m| - 1] == SOH == m'[|m'| - 1]
    requires 0 < |x| <= CAPACITY && |x| <= |beyond| && PATTERN[0] !in x && PATTERN[0] !in beyond[..|x|]
    ensures var data := m + x + m';
      Extract(None, data, beyond) ==
        Extracted(Some(StrNCpy(data[|data| - |x|..])), [Parse(m, DEFAULT), Parse(m', DEFAULT)], 0)
  {
    hide Clean, IsMessage, StrNCpy, Parse, Extract, Find, MatchAt;
    var a, b := Part(m, x), Part(m', []);
    var parts := [a, b];
    TwoParts(a, b);
    CleanIsMessage(m);
    CleanIsMessage(m');
    StartsWithPattern(m');
    var data, tail := m + x + m', m' + beyond[..|x|];
    forall q: int | q > 0 ensures !MatchAt(PATTERN, m' + [] + beyond[..|x|], q) {
      assert m' + [] + beyond[..|x|] == m' + beyond[..|x|] + [];
      if q < |tail| { NoHeaderInside(m', beyond[..|x|], [], q); } else { PatternFits(m' + [] + beyond[..|x|], q); }
    }
    QuietBehind(b, |x|, beyond);
    forall q: int | q > 0 ensures !MatchAt(PATTERN, m', q) {
      assert m' == m' + [] + [];
      if q < |m'| { NoHeaderInside(m', [], [], q); } else { PatternFits(m', q); }
    }
    NoHeaderFound(m');
    forall p: int | 0 < p < |m + x| ensures !MatchAt(PATTERN, data, p) {
      NoHeaderInside(m, x, m', p);
    }
    HeaderFound(m, x, m');
    assert m' + [] == m';
    LitteredPacket(parts, None, beyond);
  }

  lemma TwoParts(a: Part, b: Part)
    ensures Laid([a, b]) == a.msg + a.junk + (b.msg + b.junk) && Junk([a, b]) == |a.junk| + |b.junk|
    ensures Reports([a, b]) == [Parse(a.msg, DEFAULT), Parse(b.msg, DEFAULT)]
    ensures [a, b][..1] == [a] && Junk([a]) == |a.junk| && [a, b][1..] == [b] && Laid([b]) == b.msg + b.junk
  {
    hide Parse;
    assert [a, b][1..] == [b] && [b][1..] == [] && [a][1..] == [];
    assert Laid([b]) == b.msg + b.junk + [];
    assert Reports([b]) == [Parse(b.msg, DEFAULT)] + [];
    assert Junk([b]) == |b.junk| + Junk([]) && Junk([a]) == |a.junk| + Junk([]);
  }

  lemma HeaderFound(m: Text, x: Text, m': Text)
    requires IsMessage(m) && IsMessage(m')
    requires forall p: int :: 0 < p < |m + x| ==> !MatchAt(PATTERN, m + x + m', p)
    ensures NextHeader(m + x + m') == Some(|m| + |x|)
  {
    hide FindFrom, IsMessage;
    var data, n := m + x + m', |m + x|;
    StartsWithPattern(m);
    StartsWithPattern(m');
    assert data[n..n + |PATTERN|] == m'[..|PATTERN|];
    assert MatchAt(PATTERN, data, n);
    hide MatchAt;
    forall q: int | 0 <= q < n - |PATTERN| ensures !MatchAt(PATTERN, data[|PATTERN|..], q) {
      MatchInSuffix(data, |PATTERN|, q);
    }
    MatchInSuffix(data, |PATTERN|, n - |PATTERN|);
  }
}
