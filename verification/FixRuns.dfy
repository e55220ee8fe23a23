/** Whole runs of the reassembly: packet boundaries do not matter, and connections do not disturb each other. */
module FixRuns {
  import opened Bytes
  import opened Horspool
  import opened Options
  import opened FixParser
  import opened FixCodec
  import opened FixDetails
  import opened FixStream
  import opened FixBalance

  /** A TCP payload with the time stamp of its packet, and the memory behind it while it is looked at. */
  datatype Packet = Packet(data: Text, sec: nat, nsec: nat, beyond: Text)

  /** A completed parse, stamped with the packet that completed it. */
  datatype Stamped = Stamped(outcome: Outcome, sec: nat, nsec: nat)

  /** A run over several packets. */
  datatype Ran = Broken | Ran(frag: Option<Text>, log: seq<Stamped>, corrupt: nat)

  function Stamp(done: seq<Outcome>, p: Packet): (r: seq<Stamped>)
    ensures |r| == |done|
  {
    seq(|done|, i requires 0 <= i < |done| => Stamped(done[i], p.sec, p.nsec))
  }

  function Run(frag: Option<Text>, packets: seq<Packet>): Ran
    decreases packets
  {
    if packets == [] then Ran(frag, [], 0)
    else
      match Extract(frag, packets[0].data, packets[0].beyond)
      case Fault => Broken
      case Extracted(frag', done, corrupt) => Before(done, packets[0], corrupt, Run(frag', packets[1..]))
  }

  function Before(done: seq<Outcome>, p: Packet, corrupt: nat, r: Ran): Ran {
    match r
    case Broken => Broken
    case Ran(frag, log, c) => Ran(frag, Stamp(done, p) + log, corrupt + c)
  }

  function AllData(packets: seq<Packet>): Text {
    if packets == [] then [] else packets[0].data + AllData(packets[1..])
  }

  function OutcomesOf(log: seq<Stamped>): seq<Outcome> {
    seq(|log|, i requires 0 <= i < |log| => log[i].outcome)
  }

  // ----- What a run over a clean stream should do

  /** The pending bytes f and the packets to come are a prefix of the stream of the messages ms. */
  ghost predicate OnStream(ms: seq<Text>, f: Text, packets: seq<Packet>) {
    && CleanAll(ms) && (ms != [] ==> |f| < |ms[0]|) && (ms == [] ==> f == [])
    && (forall i :: 0 <= i < |packets| ==> packets[i].data != [])
    && f + AllData(packets) <= Concat(ms)
  }

  /** Each packet completes the messages whose last byte it carries, and stamps them. */
  function Expected(ms: seq<Text>, f: Text, packets: seq<Packet>): Ran
    decreases packets
  {
    if packets == [] then Ran(Pending(f), [], 0)
    else
      var c := Split(ms, f + packets[0].data);
      Before(Outcomes(ms[..c.count]), packets[0], 0, Expected(ms[c.count..], c.rest, packets[1..]))
  }

  /** No packet of the run meets the case that loses a header prefix. */
  predicate NoLoss(ms: seq<Text>, f: Text, packets: seq<Packet>)
    decreases packets
  {
    packets != [] ==>
      && !LosesPrefix(ms, f, packets[0].data)
      && var c := Split(ms, f + packets[0].data); NoLoss(ms[c.count..], c.rest, packets[1..])
  }

  lemma ConcatTake(ms: seq<Text>, k: nat)
    requires 0 < k <= |ms|
    ensures Concat(ms[..k]) == ms[0] + Concat(ms[1..][..k - 1])
    ensures ms[k..] == ms[1..][k - 1..]
  {
    assert ms[..k][1..] == ms[1..][..k - 1];
  }

  lemma {:induction false} ConcatSplit(ms: seq<Text>, k: nat)
    requires k <= |ms|
    ensures Concat(ms) == Concat(ms[..k]) + Concat(ms[k..])
  {
    if k == 0 {
      assert ms[..0] == [] && ms[0..] == ms;
    } else {
      ConcatTake(ms, k);
      ConcatSplit(ms[1..], k - 1);
    }
  }

  lemma CleanAllTail(ms: seq<Text>, k: nat)
    requires CleanAll(ms) && k <= |ms|
    ensures CleanAll(ms[k..])
  {
  }

  /** Split cuts at message boundaries and leaves less than a message. */
  lemma {:induction false} SplitFacts(ms: seq<Text>, s: Text)
    requires CleanAll(ms) && s <= Concat(ms)
    ensures var c := Split(ms, s);
      && s == Concat(ms[..c.count]) + c.rest && c.rest <= Concat(ms[c.count..])
      && (c.count < |ms| ==> |c.rest| < |ms[c.count]|) && (c.count == |ms| ==> c.rest == [])
  {
    hide Clean, Concat, Split;
    SplitStep(ms, s);
    if ms == [] || |s| < |ms[0]| {
      assert ms[..0] == [] && ms[0..] == ms;
      ConcatNil();
    } else {
      TailOf(ms, s);
      CleanAllTail(ms, 1);
      SplitFacts(ms[1..], s[|ms[0]|..]);
      ConcatTake(ms, Split(ms[1..], s[|ms[0]|..]).count + 1);
    }
  }

  lemma ConcatNil()
    ensures Concat([]) == []
  {
  }

  /** After a packet the run is on the rest of the stream. */
  lemma NextOnStream(ms: seq<Text>, f: Text, packets: seq<Packet>)
    requires OnStream(ms, f, packets) && packets != []
    ensures Aligned(ms, f, packets[0].data)
    ensures var c := Split(ms, f + packets[0].data); OnStream(ms[c.count..], c.rest, packets[1..])
  {
    hide Clean, Concat, Split;
    var s, rest := f + packets[0].data, AllData(packets[1..]);
    assert f + AllData(packets) == s + rest;
    PrefixOfPrefix(s, rest, Concat(ms));
    SplitFacts(ms, s);
    var c := Split(ms, s);
    ConcatSplit(ms, c.count);
    CleanAllTail(ms, c.count);
    DropPrefix(Concat(ms[..c.count]), c.rest, rest, Concat(ms[c.count..]));
  }

  lemma PrefixOfPrefix(a: Text, b: Text, c: Text)
    requires a + b <= c
    ensures a <= c
  {
    assert a == (a + b)[..|a|] == c[..|a|];
  }

  lemma DropPrefix(k: Text, a: Text, b: Text, c: Text)
    requires (k + a) + b <= k + c
    ensures a + b <= c
  {
    var x, y := (k + a) + b, k + c;
    assert a + b == x[|k|..] && c == y[|k|..];
    assert x == y[..|x|];
    assert a + b == c[..|a + b|];
  }

  /** Over a whole run without loss, the code does exactly what is expected of it. */
  lemma {:induction false} RunExact(ms: seq<Text>, f: Text, packets: seq<Packet>)
    requires OnStream(ms, f, packets) && NoLoss(ms, f, packets)
    ensures Run(Pending(f), packets) == Expected(ms, f, packets)
    decreases packets
  {
    if packets != [] {
      NextOnStream(ms, f, packets);
      ExtractExact(ms, f, packets[0].data, packets[0].beyond);
      var c := Split(ms, f + packets[0].data);
      RunExact(ms[c.count..], c.rest, packets[1..]);
    }
  }

  lemma {:induction false} OutcomesAppend(a: seq<Text>, b: seq<Text>)
    ensures Outcomes(a + b) == Outcomes(a) + Outcomes(b)
  {
    if a == [] {
      assert a + b == b;
    } else {
      assert (a + b)[1..] == a[1..] + b;
      OutcomesAppend(a[1..], b);
    }
  }

  /** Cutting in two steps is cutting at once. */
  lemma {:induction false} SplitCompose(ms: seq<Text>, s: Text, t: Text)
    requires CleanAll(ms) && s + t <= Concat(ms)
    ensures var c := Split(ms, s);
      var d := Split(ms[c.count..], c.rest + t);
      Split(ms, s + t) == Cut(c.count + d.count, d.rest)
  {
    hide Clean, Concat, Split;
    SplitStep(ms, s);
    if ms == [] || |s| < |ms[0]| {
      assert ms[0..] == ms;
    } else {
      var k, c := |ms[0]|, Split(ms[1..], s[|ms[0]|..]);
      SplitStep(ms, s + t);
      TailOf(ms, s + t);
      assert (s + t)[k..] == s[k..] + t;
      CleanAllTail(ms, 1);
      SplitCompose(ms[1..], s[k..], t);
      assert ms[1..][c.count..] == ms[c.count + 1..];
    }
  }

  lemma OutcomesOfBefore(done: seq<Outcome>, p: Packet, log: seq<Stamped>)
    ensures OutcomesOf(Stamp(done, p) + log) == done + OutcomesOf(log)
  {
  }

  /** The expected result depends on the bytes delivered, not on the packets that carried them. */
  lemma {:induction false} ExpectedByBytes(ms: seq<Text>, f: Text, packets: seq<Packet>)
    requires OnStream(ms, f, packets)
    ensures var e, c := Expected(ms, f, packets), Split(ms, f + AllData(packets));
      && e.Ran? && e.corrupt == 0 && e.frag == Pending(c.rest)
      && OutcomesOf(e.log) == Outcomes(ms[..c.count])
    decreases packets
  {
    hide Outcomes, Clean, Concat, OutcomesOf, Stamp;
    if packets == [] {
      assert f + [] == f;
      assert ms[..0] == [];
      OutcomesNil();
    } else {
      NextOnStream(ms, f, packets);
      var s, t := f + packets[0].data, AllData(packets[1..]);
      var c := Split(ms, s);
      var r := Expected(ms[c.count..], c.rest, packets[1..]);
      ExpectedByBytes(ms[c.count..], c.rest, packets[1..]);
      assert f + AllData(packets) == s + t;
      hide Split;
      SplitCompose(ms, s, t);
      var d := Split(ms[c.count..], c.rest + t);
      OutcomesInTwo(ms, c.count, d.count);
      OutcomesOfBefore(Outcomes(ms[..c.count]), packets[0], r.log);
    }
  }

  lemma OutcomesInTwo(ms: seq<Text>, i: nat, j: nat)
    requires i + j <= |ms|
    ensures Outcomes(ms[..i + j]) == Outcomes(ms[..i]) + Outcomes(ms[i..][..j])
  {
    assert ms[..i + j] == ms[..i] + ms[i..][..j];
    OutcomesAppend(ms[..i], ms[i..][..j]);
  }

  lemma OutcomesNil()
    ensures Outcomes([]) == [] == OutcomesOf([])
  {
  }

  /**
   Segmentation: a connection that starts at a message boundary delivers the messages of its stream
   in order, each once, and keeps exactly the bytes since the last boundary, however it was cut into packets.
   */
  lemma Segmentation(ms: seq<Text>, packets: seq<Packet>)
    requires OnStream(ms, [], packets) && NoLoss(ms, [], packets)
    ensures var r, c := Run(None, packets), Split(ms, AllData(packets));
      && r.Ran? && r.corrupt == 0 && r.frag == Pending(c.rest)
      && OutcomesOf(r.log) == Outcomes(ms[..c.count])
  {
    assert [] + AllData(packets) == AllData(packets);
    RunExact(ms, [], packets);
    ExpectedByBytes(ms, [], packets);
  }

  /** Two ways to cut the same bytes into packets lead to the same parses and the same fragment. */
  lemma SegmentationIndependence(ms: seq<Text>, packets: seq<Packet>, packets': seq<Packet>)
    requires OnStream(ms, [], packets) && NoLoss(ms, [], packets)
    requires OnStream(ms, [], packets') && NoLoss(ms, [], packets')
    requires AllData(packets) == AllData(packets')
    ensures var r, r' := Run(None, packets), Run(None, packets');
      r.Ran? && r'.Ran? && r.frag == r'.frag && OutcomesOf(r.log) == OutcomesOf(r'.log)
  {
    Segmentation(ms, packets);
    Segmentation(ms, packets');
  }

  // ----- Exactly when

  lemma {:induction false} OnStreamPrefix(ms: seq<Text>, f: Text, packets: seq<Packet>, k: nat)
    requires OnStream(ms, f, packets) && k <= |packets|
    ensures OnStream(ms, f, packets[..k])
  {
    DataPrefix(packets, k);
    var a, b := f + AllData(packets[..k]), f + AllData(packets);
    assert a == b[..|a|] == Concat(ms)[..|a|];
  }

  lemma {:induction false} DataPrefix(packets: seq<Packet>, k: nat)
    requires k <= |packets|
    ensures AllData(packets[..k]) <= AllData(packets)
  {
    if k > 0 {
      DataPrefix(packets[1..], k - 1);
      assert packets[..k][1..] == packets[1..][..k - 1];
    }
  }

  lemma {:induction false} NoLossPrefix(ms: seq<Text>, f: Text, packets: seq<Packet>, k: nat)
    requires NoLoss(ms, f, packets) && k <= |packets|
    ensures NoLoss(ms, f, packets[..k])
    decreases packets
  {
    hide Split, LosesPrefix;
    if k > 0 {
      var c := Split(ms, f + packets[0].data);
      NoLossPrefix(ms[c.count..], c.rest, packets[1..], k - 1);
      assert packets[..k][1..] == packets[1..][..k - 1];
    }
  }

  /** On any bytes, with any loss: what a run reports and keeps is at most what it was given. */
  lemma {:induction false} RunBalance(frag: Option<Text>, packets: seq<Packet>)
    ensures var r := Run(frag, packets);
      r.Ran? ==> Spent(OutcomesOf(r.log)) + Held(r.frag) <= Held(frag) + |AllData(packets)|
    decreases packets
  {
    hide Extract, Spent, Held, OutcomesOf, Stamp;
    OutcomesNil();
    SpentNil();
    if packets != [] {
      var p := packets[0];
      var e := Extract(frag, p.data, p.beyond);
      if e.Extracted? {
        ExtractBalance(frag, p.data, p.beyond);
        RunBalance(e.frag, packets[1..]);
        var r := Run(e.frag, packets[1..]);
        if r.Ran? {
          OutcomesOfBefore(e.done, p, r.log);
          SpentAppend(e.done, OutcomesOf(r.log));
        }
      }
    }
  }

  /** A run that meets a loss reports and keeps less than it was given: bytes once lost never come back. */
  lemma {:induction false} LossStays(ms: seq<Text>, f: Text, packets: seq<Packet>)
    requires OnStream(ms, f, packets) && !NoLoss(ms, f, packets)
    ensures var r := Run(Pending(f), packets);
      r.Ran? ==> Spent(OutcomesOf(r.log)) + Held(r.frag) < |f| + |AllData(packets)|
    decreases packets
  {
    hide Extract, Spent, OutcomesOf, Outcomes, Stamp, Split, Clean, CleanAll, Concat, Find, OnStream, LosesPrefix;
    var p, rest := packets[0], packets[1..];
    NextOnStream(ms, f, packets);
    var e := Extract(Pending(f), p.data, p.beyond);
    if e.Extracted? {
      var r := Run(e.frag, rest);
      ExtractBalance(Pending(f), p.data, p.beyond);
      if LosesPrefix(ms, f, p.data) {
        LossPending(ms, f, p.data);
        LossIsMissing(ms, f, p.data, p.beyond);
        RunBalance(e.frag, rest);
      } else {
        ExtractExact(ms, f, p.data, p.beyond);
        var c := Split(ms, f + p.data);
        LossStays(ms[c.count..], c.rest, rest);
        HeldPending(c.rest);
      }
      if r.Ran? {
        OutcomesOfBefore(e.done, p, r.log);
        SpentAppend(e.done, OutcomesOf(r.log));
      }
    }
  }

  lemma LossPending(ms: seq<Text>, f: Text, data: Text)
    requires LosesPrefix(ms, f, data)
    ensures Pending(f) == Some(f)
  {
  }

  lemma HeldPending(f: Text)
    ensures Held(Pending(f)) == |f|
  {
  }

  lemma SpentNil()
    ensures Spent([]) == 0
  {
  }

  /** Whole messages are reported with all their bytes. */
  lemma {:induction false} OutcomesSpend(ms: seq<Text>)
    requires CleanAll(ms)
    ensures Spent(Outcomes(ms)) == |Concat(ms)|
  {
    hide Clean, Parse;
    if ms != [] {
      assert Clean(ms[0]);
      CleanIsMessage(ms[0]);
      ParseThen(ms[0], [], DEFAULT);
      CleanAllTail(ms, 1);
      OutcomesSpend(ms[1..]);
      assert ([Parse(ms[0], DEFAULT)] + Outcomes(ms[1..]))[1..] == Outcomes(ms[1..]);
    }
  }

  /** A run as it should be reports and keeps every byte it was given. */
  lemma ExpectedSpends(ms: seq<Text>, packets: seq<Packet>)
    requires OnStream(ms, [], packets)
    ensures var r := Expected(ms, [], packets);
      r.Ran? && Spent(OutcomesOf(r.log)) + Held(r.frag) == |AllData(packets)|
  {
    hide Expected, Split, Outcomes, Spent, Concat, Clean, OutcomesOf;
    var s := AllData(packets);
    assert [] + s == s;
    ExpectedByBytes(ms, [], packets);
    SplitFacts(ms, s);
    var c := Split(ms, s);
    OutcomesSpend(ms[..c.count]);
    HeldPending(c.rest);
  }

  /**
   A run ends right exactly when no packet loses a header prefix, and then it was right after every packet:
   whatever comes later, what is lost is missing at the end.
   */
  lemma RightIffNoLoss(ms: seq<Text>, packets: seq<Packet>)
    requires OnStream(ms, [], packets)
    ensures Run(None, packets) == Expected(ms, [], packets) <==> NoLoss(ms, [], packets)
    ensures NoLoss(ms, [], packets) ==>
      forall k: nat :: k <= |packets| ==> Run(None, packets[..k]) == Expected(ms, [], packets[..k])
  {
    hide Run, Expected, Spent, Held, OutcomesOf;
    if NoLoss(ms, [], packets) {
      RunExact(ms, [], packets);
      forall k: nat | k <= |packets| ensures Run(None, packets[..k]) == Expected(ms, [], packets[..k]) {
        OnStreamPrefix(ms, [], packets, k);
        NoLossPrefix(ms, [], packets, k);
        RunExact(ms, [], packets[..k]);
      }
    } else {
      LossStays(ms, [], packets);
      ExpectedSpends(ms, packets);
    }
  }

  lemma TwoParts(m: Text, m': Text, p: Packet, q: Packet)
    ensures Concat([m, m']) == m + m' && AllData([p, q]) == p.data + q.data
  {
    assert Concat([m']) == m' + Concat([]);
    assert [m, m'][1..] == [m'];
    assert AllData([q]) == q.data + AllData([]);
    assert [p, q][1..] == [q];
  }

  lemma TwoPacketsLose(ms: seq<Text>, p: Packet, q: Packet)
    requires ms != [] && 0 < |p.data| < |ms[0]| < |p.data| + |q.data| && Find(PATTERN, q.data) == None
    ensures !NoLoss(ms, [], [p, q])
  {
    hide Find, Split;
    SplitStep(ms, p.data);
    assert [] + p.data == p.data && ms[0..] == ms && [p, q][1..] == [q];
  }

  /** The excluded case is real: any two clean messages, cut once inside the first and once early in the second. */
  lemma LossHappens(m: Text, m': Text, k: nat, t: nat, p: Packet, q: Packet)
    requires Clean(m) && Clean(m') && 0 < k < |m| && 0 < t < |PATTERN| && t < |m'|
    requires p.data == m[..k] && q.data == m[k..] + m'[..t]
    ensures OnStream([m, m'], [], [p, q]) && !NoLoss([m, m'], [], [p, q])
    ensures Run(None, [p, q]) != Expected([m, m'], [], [p, q])
  {
    hide *;
    CutTwice(m, m', k, t, p, q);
    NoHeaderYet(m, m', k, t, p, q);
    TwoPacketsLose([m, m'], p, q);
    RightIffNoLoss([m, m'], [p, q]);
  }

  lemma CutTwice(m: Text, m': Text, k: nat, t: nat, p: Packet, q: Packet)
    requires Clean(m) && Clean(m') && 0 < k < |m| && 0 < t < |PATTERN| && t < |m'|
    requires p.data == m[..k] && q.data == m[k..] + m'[..t]
    ensures OnStream([m, m'], [], [p, q]) && |p.data| == k && |q.data| == |m| - k + t
  {
    var ms, packets := [m, m'], [p, q];
    assert CleanAll(ms);
    hide Clean, CleanAll, Concat, AllData;
    TwoParts(m, m', p, q);
    assert p.data + q.data == m + m'[..t] == (m + m')[..|m| + t];
    assert [] + AllData(packets) == p.data + q.data;
  }

  lemma NoHeaderYet(m: Text, m': Text, k: nat, t: nat, p: Packet, q: Packet)
    requires Clean(m) && Clean(m') && 0 < k < |m| && 0 < t < |PATTERN| && t < |m'|
    requires p.data == m[..k] && q.data == m[k..] + m'[..t]
    ensures Find(PATTERN, q.data) == None
  {
    var ms, s := [m, m'], p.data + q.data;
    assert CleanAll(ms);
    hide Clean, CleanAll, Concat, Find;
    TwoParts(m, m', p, q);
    assert s == m + m'[..t] == (m + m')[..|m| + t];
    FindHeader(ms, s, k);
    assert s[k..] == q.data;
  }

  /** Clean messages exist. */
  lemma CleanExists()
    ensures Clean(Encode(Fix42, [Field(MSG_TYPE, [68])]))
  {
    hide Encode, IsMessage, MatchAt;
    EncodedFrame(Fix42, [Field(MSG_TYPE, [68])]);
    var x := SmallestMessage();
    OneHeader(x);
  }

  lemma SmallestMessage() returns (x: Text)
    ensures Encode(Fix42, [Field(MSG_TYPE, [68])]) == HEADER_42 + x
    ensures NUL !in x && 70 !in x && |x| < 100
  {
    hide Decimal, Sum, Preamble, EncodeFields;
    var fields := [Field(MSG_TYPE, [68])];
    SmallestBody();
    TenInDigits();
    var c := Sum(Preamble(Fix42, fields) + EncodeFields(fields)) % 256;
    x := [53, 1, 51, 53, 61, 68, 1, 49, 48, 61] + CheckDigits(c) + [1];
  }

  lemma SmallestBody()
    ensures var fields := [Field(MSG_TYPE, [68])];
      EncodeFields(fields) == [51, 53, 61, 68, 1] && Preamble(Fix42, fields) == HEADER_42 + [53, 1]
  {
    var fields := [Field(MSG_TYPE, [68])];
    assert Decimal(35) == Decimal(3) + [53] == [51, 53];
    assert fields[1..] == [];
    assert EncodeFields(fields) == [51, 53, 61, 68, 1];
  }

  /** A message whose only 'F' is the one in its header holds no other header. */
  lemma OneHeader(x: Text)
    requires 70 !in x
    ensures forall p: int :: 0 < p ==> !MatchAt(PATTERN, HEADER_42 + x, p)
  {
    var m := HEADER_42 + x;
    assert forall i :: 2 < i < |m| ==> m[i] != 70;
    forall p: int | 0 < p ensures !MatchAt(PATTERN, m, p) {
      if p + |PATTERN| <= |m| { MatchByte(PATTERN, m, p, 2); }
    }
  }

  // ----- Time stamps

  /** The packet that carries byte number b of what the packets deliver. */
  function PacketAt(packets: seq<Packet>, b: nat): Packet
    requires b < |AllData(packets)|
  {
    if b < |packets[0].data| then packets[0] else PacketAt(packets[1..], b - |packets[0].data|)
  }

  lemma {:induction false} EndsGrow(ms: seq<Text>, i: nat, j: nat)
    requires i <= j <= |ms|
    ensures |Concat(ms[..i])| <= |Concat(ms[..j])|
  {
    ConcatSplit(ms[..j], i);
    assert ms[..j][..i] == ms[..i];
  }

  lemma LogLength(ms: seq<Text>)
    ensures |Outcomes(ms)| == |ms|
  {
  }

  /** The stamp expected for a parse is that of the packet that carried the last byte of its message. */
  lemma {:induction false} ExpectedStamps(ms: seq<Text>, f: Text, packets: seq<Packet>, j: nat)
    requires OnStream(ms, f, packets) && j < Split(ms, f + AllData(packets)).count
    ensures var e := Expected(ms, f, packets);
      && e.Ran? && j < |e.log|
      && |f| < |Concat(ms[..j + 1])| <= |f + AllData(packets)|
      && var p := PacketAt(packets, |Concat(ms[..j + 1])| - 1 - |f|);
      && e.log[j].sec == p.sec && e.log[j].nsec == p.nsec
    decreases packets
  {
    hide Clean, Concat, Outcomes, OnStream, PacketAt, Expected, Split, Before;
    assert f + [] == f;
    ExpectedByBytes(ms, f, packets);
    LogLength(ms[..Split(ms, f + AllData(packets)).count]);
    FirstEnds(ms, f, packets, j);
    if packets != [] {
      var s, t, tail := f + packets[0].data, AllData(packets[1..]), packets[1..];
      var c := Split(ms, s);
      var ms', r := ms[c.count..], Expected(ms[c.count..], c.rest, packets[1..]);
      NextOnStream(ms, f, packets);
      OnStreamBytes(ms, f, packets);
      StepCounts(ms, s, t, f + AllData(packets));
      ExpectedByBytes(ms', c.rest, tail);
      LogLength(ms[..c.count]);
      LogLength(ms'[..Split(ms', c.rest + t).count]);
      ExpectedStep(ms, f, packets);
      StampedBefore(Outcomes(ms[..c.count]), packets[0], r, j);
      PacketAtStep(packets, |Concat(ms[..j + 1])| - 1 - |f|);
      if j < c.count {
        EndsGrow(ms, j + 1, c.count);
      } else {
        ExpectedStamps(ms', c.rest, tail, j - c.count);
        EndAfter(ms, c.count, j + 1);
      }
    } else {
      SplitStep(ms, f);
      OnStreamFirst(ms, f, packets);
    }
  }

  /** In a run without loss every parse is stamped with the packet that carried the last byte of its message. */
  lemma StampIsLastByte(ms: seq<Text>, packets: seq<Packet>, j: nat)
    requires OnStream(ms, [], packets) && NoLoss(ms, [], packets) && j < Split(ms, AllData(packets)).count
    ensures var r := Run(None, packets);
      && r.Ran? && j < |r.log| && 0 < |Concat(ms[..j + 1])| <= |AllData(packets)|
      && var p := PacketAt(packets, |Concat(ms[..j + 1])| - 1);
      && r.log[j].outcome == Parse(ms[j], DEFAULT) && r.log[j].sec == p.sec && r.log[j].nsec == p.nsec
  {
    hide Run, Expected, Split, Parse, OnStream, NoLoss, PacketAt, Outcomes, AllData, Concat;
    assert [] + AllData(packets) == AllData(packets);
    ExpectedStamps(ms, [], packets, j);
    RunExact(ms, [], packets);
    Segmentation(ms, packets);
    var c := Split(ms, AllData(packets)).count;
    OutcomeAt(ms[..c], j);
    assert OutcomesOf(Run(None, packets).log)[j] == Run(None, packets).log[j].outcome;
  }

  lemma {:induction false} OutcomeAt(ms: seq<Text>, j: nat)
    requires j < |ms|
    ensures |Outcomes(ms)| == |ms| && Outcomes(ms)[j] == Parse(ms[j], DEFAULT)
  {
    hide Parse;
    if j > 0 { OutcomeAt(ms[1..], j - 1); } else { LogLength(ms); }
  }

  lemma OnStreamFirst(ms: seq<Text>, f: Text, packets: seq<Packet>)
    requires OnStream(ms, f, packets)
    ensures ms == [] || |f| < |ms[0]|
  {
  }

  lemma ExpectedStep(ms: seq<Text>, f: Text, packets: seq<Packet>)
    requires packets != []
    ensures var c := Split(ms, f + packets[0].data);
      Expected(ms, f, packets) ==
        Before(Outcomes(ms[..c.count]), packets[0], 0, Expected(ms[c.count..], c.rest, packets[1..]))
  {
  }

  lemma PacketAtStep(packets: seq<Packet>, b: nat)
    requires packets != [] && b < |AllData(packets)|
    ensures |AllData(packets)| == |packets[0].data| + |AllData(packets[1..])|
    ensures PacketAt(packets, b) ==
      if b < |packets[0].data| then packets[0] else PacketAt(packets[1..], b - |packets[0].data|)
  {
  }

  lemma OnStreamBytes(ms: seq<Text>, f: Text, packets: seq<Packet>)
    requires OnStream(ms, f, packets) && packets != []
    ensures CleanAll(ms) && f + AllData(packets) <= Concat(ms)
    ensures f + AllData(packets) == f + packets[0].data + AllData(packets[1..])
  {
  }

  /** Cutting off the bytes s leaves the later messages and bytes to be counted on their own. */
  lemma StepCounts(ms: seq<Text>, s: Text, t: Text, whole: Text)
    requires CleanAll(ms) && whole == s + t <= Concat(ms)
    ensures var c := Split(ms, s);
      && Split(ms, whole).count == c.count + Split(ms[c.count..], c.rest + t).count
      && |s| == |Concat(ms[..c.count])| + |c.rest|
  {
    SplitCompose(ms, s, t);
    PrefixOfPrefix(s, t, Concat(ms));
    SplitFacts(ms, s);
  }

  lemma EndAfter(ms: seq<Text>, k: nat, n: nat)
    requires k <= n <= |ms|
    ensures |Concat(ms[..n])| == |Concat(ms[..k])| + |Concat(ms[k..][..n - k])|
  {
    ConcatSplit(ms[..n], k);
    assert ms[..n][..k] == ms[..k] && ms[..n][k..] == ms[k..][..n - k];
  }

  lemma StampedBefore(done: seq<Outcome>, p: Packet, r: Ran, j: nat)
    requires r.Ran? && j < |done| + |r.log|
    ensures var log := Before(done, p, 0, r).log;
      |log| == |done| + |r.log| && log[j] == if j < |done| then Stamped(done[j], p.sec, p.nsec) else r.log[j - |done|]
  {
  }

  lemma FirstEnds(ms: seq<Text>, f: Text, packets: seq<Packet>, j: nat)
    requires OnStream(ms, f, packets) && j < Split(ms, f + AllData(packets)).count
    ensures |f| < |Concat(ms[..j + 1])| <= |f + AllData(packets)|
  {
    var c := Split(ms, f + AllData(packets));
    SplitFacts(ms, f + AllData(packets));
    EndsGrow(ms, 1, j + 1);
    EndsGrow(ms, j + 1, c.count);
    assert ms[..1] == [ms[0]];
    assert Concat(ms[..1]) == ms[0] + Concat([]);
  }

  // ----- Summaries

  /** The summaries that a run offers to the ring buffer, in order. */
  function Emitted(log: seq<Stamped>): seq<Summary> {
    if log == [] then []
    else Emitted(log[..|log| - 1]) + Summaries(log[|log| - 1].outcome, log[|log| - 1].sec, log[|log| - 1].nsec)
  }

  /** Summaries without their time stamps. */
  function Kinds(ss: seq<Summary>): seq<(int, Text)> {
    seq(|ss|, i requires 0 <= i < |ss| => (ss[i].msgType, ss[i].key))
  }

  lemma KindsAppend(a: seq<Summary>, b: seq<Summary>)
    ensures Kinds(a + b) == Kinds(a) + Kinds(b)
  {
  }

  lemma KindsOf(o: Outcome, sec: nat, nsec: nat, sec': nat, nsec': nat)
    ensures Kinds(Summaries(o, sec, nsec)) == Kinds(Summaries(o, sec', nsec'))
  {
    hide DetailsOf, KeyOf;
  }

  lemma {:induction false} EmittedByOutcomes(log: seq<Stamped>, log': seq<Stamped>)
    requires OutcomesOf(log) == OutcomesOf(log')
    ensures Kinds(Emitted(log)) == Kinds(Emitted(log'))
  {
    hide Summaries, Kinds;
    assert |OutcomesOf(log)| == |log| && |OutcomesOf(log')| == |log'|;
    if log != [] {
      var n := |log| - 1;
      var x, y := log[n], log'[n];
      assert OutcomesOf(log[..n]) == OutcomesOf(log)[..n] == OutcomesOf(log'[..n]);
      assert x.outcome == OutcomesOf(log)[n] == OutcomesOf(log')[n] == y.outcome;
      EmittedByOutcomes(log[..n], log'[..n]);
      KindsAppend(Emitted(log[..n]), Summaries(x.outcome, x.sec, x.nsec));
      KindsAppend(Emitted(log'[..n]), Summaries(y.outcome, y.sec, y.nsec));
      KindsOf(x.outcome, x.sec, x.nsec, y.sec, y.nsec);
    }
  }

  /** However the stream is cut, the same summaries are offered in the same order, up to time stamps. */
  lemma SummariesIndependent(ms: seq<Text>, packets: seq<Packet>, packets': seq<Packet>)
    requires OnStream(ms, [], packets) && NoLoss(ms, [], packets)
    requires OnStream(ms, [], packets') && NoLoss(ms, [], packets')
    requires AllData(packets) == AllData(packets')
    ensures Run(None, packets).Ran? && Run(None, packets').Ran?
    ensures Kinds(Emitted(Run(None, packets).log)) == Kinds(Emitted(Run(None, packets').log))
  {
    SegmentationIndependence(ms, packets, packets');
    EmittedByOutcomes(Run(None, packets).log, Run(None, packets').log);
  }

  // ----- Many connections

  datatype StreamId = StreamId(saddr: nat, daddr: nat, sport: nat, dport: nat)

  /** The stored fragments by connection. */
  type Store = map<StreamId, Text>

  function Lookup(st: Store, id: StreamId): Option<Text> {
    if id in st then Some(st[id]) else None
  }

  function Update(st: Store, id: StreamId, frag: Option<Text>): (st': Store)
    ensures Lookup(st', id) == frag
    ensures forall other :: other != id ==> Lookup(st', other) == Lookup(st, other)
  {
    match frag
    case Some(f) => st[id := f]
    case None => st - {id}
  }

  datatype Arrival = Arrival(id: StreamId, packet: Packet)
  datatype Tagged = Tagged(id: StreamId, entry: Stamped)
  datatype AllRan = AllBroken | AllRan(store: Store, log: seq<Tagged>)

  function Tag(id: StreamId, log: seq<Stamped>): (r: seq<Tagged>)
    ensures |r| == |log|
  {
    seq(|log|, i requires 0 <= i < |log| => Tagged(id, log[i]))
  }

  /** The probe on an interleaving of packets from many connections. */
  function RunAll(st: Store, arrivals: seq<Arrival>): AllRan
    decreases arrivals
  {
    if arrivals == [] then AllRan(st, [])
    else
      var a := arrivals[0];
      match Extract(Lookup(st, a.id), a.packet.data, a.packet.beyond)
      case Fault => AllBroken
      case Extracted(frag, done, _) =>
        match RunAll(Update(st, a.id, frag), arrivals[1..])
        case AllBroken => AllBroken
        case AllRan(st', log) => AllRan(st', Tag(a.id, Stamp(done, a.packet)) + log)
  }

  function PacketsOf(id: StreamId, arrivals: seq<Arrival>): seq<Packet> {
    if arrivals == [] then []
    else (if arrivals[0].id == id then [arrivals[0].packet] else []) + PacketsOf(id, arrivals[1..])
  }

  function LogOf(id: StreamId, log: seq<Tagged>): seq<Stamped> {
    if log == [] then []
    else (if log[0].id == id then [log[0].entry] else []) + LogOf(id, log[1..])
  }

  lemma LogOfCons(id: StreamId, t: Tagged, log: seq<Tagged>)
    ensures LogOf(id, [t] + log) == (if t.id == id then [t.entry] else []) + LogOf(id, log)
  {
    assert ([t] + log)[1..] == log;
  }

  lemma {:induction false} LogOfTagged(id: StreamId, other: StreamId, a: seq<Stamped>, log: seq<Tagged>)
    ensures LogOf(id, Tag(other, a) + log) == (if id == other then a else []) + LogOf(id, log)
  {
    hide LogOf;
    if a == [] {
      assert Tag(other, a) + log == log;
    } else {
      LogOfTagged(id, other, a[1..], log);
      assert Tag(other, a) + log == [Tagged(other, a[0])] + (Tag(other, a[1..]) + log);
      LogOfCons(id, Tagged(other, a[0]), Tag(other, a[1..]) + log);
      assert id == other ==> a == [a[0]] + a[1..];
    }
  }

  /**
   Isolation: in any interleaving, each connection ends with the fragment and the parses it would
   have had alone.
   */
  lemma {:induction false} Isolation(st: Store, arrivals: seq<Arrival>, id: StreamId)
    requires RunAll(st, arrivals).AllRan?
    ensures var all, alone := RunAll(st, arrivals), Run(Lookup(st, id), PacketsOf(id, arrivals));
      alone.Ran? && alone.frag == Lookup(all.store, id) && alone.log == LogOf(id, all.log)
    decreases arrivals
  {
    hide Extract, Update;
    if arrivals != [] {
      var a, rest := arrivals[0], arrivals[1..];
      var e := Extract(Lookup(st, a.id), a.packet.data, a.packet.beyond);
      var st' := Update(st, a.id, e.frag);
      Isolation(st', rest, id);
      LogOfTagged(id, a.id, Stamp(e.done, a.packet), RunAll(st', rest).log);
      if a.id == id {
        assert PacketsOf(id, arrivals)[1..] == PacketsOf(id, rest);
      } else {
        assert PacketsOf(id, arrivals) == PacketsOf(id, rest);
      }
    }
  }

  /** The probe faults on an interleaving only if one of the connections faults alone. */
  lemma {:induction false} FaultIsSomeones(st: Store, arrivals: seq<Arrival>) returns (id: StreamId)
    requires RunAll(st, arrivals).AllBroken?
    ensures Run(Lookup(st, id), PacketsOf(id, arrivals)).Broken?
    decreases arrivals
  {
    hide Extract, Update;
    var a, rest := arrivals[0], arrivals[1..];
    var e := Extract(Lookup(st, a.id), a.packet.data, a.packet.beyond);
    if e.Fault? {
      id := a.id;
    } else {
      id := FaultIsSomeones(Update(st, a.id, e.frag), rest);
    }
    if a.id == id {
      assert PacketsOf(id, arrivals)[1..] == PacketsOf(id, rest);
    } else {
      assert PacketsOf(id, arrivals) == PacketsOf(id, rest);
    }
  }

  /** The probe runs through exactly when every connection would alone. */
  lemma RunsIffAllRun(st: Store, arrivals: seq<Arrival>)
    ensures RunAll(st, arrivals).AllRan? <==> forall id :: Run(Lookup(st, id), PacketsOf(id, arrivals)).Ran?
  {
    if RunAll(st, arrivals).AllRan? {
      forall id ensures Run(Lookup(st, id), PacketsOf(id, arrivals)).Ran? {
        Isolation(st, arrivals, id);
      }
    } else {
      var id := FaultIsSomeones(st, arrivals);
    }
  }
}
