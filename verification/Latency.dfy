/** Matching requests with responses, as a function of the table and the message. */
module Latency {
  import opened Bytes
  import opened Options
  import opened FixDetails

  /** latency_record_t */
  datatype Record = Record(msgType: int, sec: int, nsec: int, key: Text)

  /** The table from keys to records; a null record pointer is None. */
  type Table = map<Text, Option<Record>>

  predicate IsBegin(msgType: int) {
    msgType == MASS_QUOTE || msgType == NEW_ORDER_SINGLE || msgType == TRACE_REQ
  }

  predicate IsComplement(a: int, b: int) {
    if a == MASS_QUOTE then b == MASS_QUOTE_ACK
    else if a == MASS_QUOTE_ACK then b == MASS_QUOTE
    else if a == NEW_ORDER_SINGLE then b == EXECUTION_REPORT
    else if a == EXECUTION_REPORT then b == NEW_ORDER_SINGLE
    else if a == TRACE_REQ then b == TRACE_RSP
    else if a == TRACE_RSP then b == TRACE_REQ
    else false
  }

  /** Nanoseconds from the first time to the second. */
  function Diff(sec0: int, nsec0: int, sec1: int, nsec1: int): int {
    (sec1 - sec0) * 1000000000 + (nsec1 - nsec0)
  }

  function RecordOf(msg: Summary): Record {
    Record(msg.msgType, msg.sec, msg.nsec, CString(msg.key))
  }

  /** What one message does. */
  datatype Effect = Stored | Matched(latency: int) | Ignored

  function EffectOf(t: Table, msg: Summary): Effect {
    var key := CString(msg.key);
    if key !in t then Stored
    else
      match t[key]
      case None => Ignored
      case Some(r) =>
        if !IsComplement(msg.msgType, r.msgType) then Ignored
        else if IsBegin(msg.msgType) then Matched(Diff(msg.sec, msg.nsec, r.sec, r.nsec))
        else Matched(Diff(r.sec, r.nsec, msg.sec, msg.nsec))
  }

  /** The table after calculate_latency. */
  function Next(t: Table, msg: Summary): Table {
    var key := CString(msg.key);
    match EffectOf(t, msg)
    case Stored => t[key := Some(RecordOf(msg))]
    case Matched(_) => t - {key}
    case Ignored => t
  }

  /** The values passed to the histogram. */
  function Recorded(t: Table, msg: Summary): seq<int> {
    match EffectOf(t, msg)
    case Matched(latency) => [latency]
    case _ => []
  }

  datatype Result = Result(table: Table, log: seq<int>)

  /** A run over several messages, with the values recorded on the way. */
  function Run(t: Table, msgs: seq<Summary>): Result
    decreases msgs
  {
    if msgs == [] then Result(t, [])
    else
      var r := Run(Next(t, msgs[0]), msgs[1..]);
      Result(r.table, Recorded(t, msgs[0]) + r.log)
  }

  // ----- Conservation

  /** Every record in the table is there and carries the key it is stored under. */
  ghost predicate OwnKeys(t: Table) {
    forall k :: k in t ==> t[k].Some? && t[k].value.key == k
  }

  /** How many messages find their key taken by something that is not their complement. */
  function CountIgnored(t: Table, msgs: seq<Summary>): nat
    decreases msgs
  {
    if msgs == [] then 0
    else (if EffectOf(t, msgs[0]).Ignored? then 1 else 0) + CountIgnored(Next(t, msgs[0]), msgs[1..])
  }

  lemma TableSize(t: Table, msg: Summary)
    ensures |Next(t, msg)| == |t| + match EffectOf(t, msg) case Stored => 1 case Matched(_) => -1 case Ignored => 0
  {
    var key := CString(msg.key);
    if key !in t {
      assert t[key := Some(RecordOf(msg))].Keys == t.Keys + {key};
    } else {
      assert (t - {key}).Keys == t.Keys - {key};
      assert |t.Keys - {key}| == |t.Keys| - 1;
      assert |(t - {key}).Keys| == |t - {key}|;
    }
  }

  /**
   Conservation: every message either grows the table, completes a pair that recorded one latency,
   or is ignored; and the table only ever holds non-null records under their own keys.
   */
  lemma {:induction false} Conservation(t: Table, msgs: seq<Summary>)
    ensures var r := Run(t, msgs);
      && |msgs| == (|r.table| - |t|) + 2 * |r.log| + CountIgnored(t, msgs)
      && (OwnKeys(t) ==> OwnKeys(r.table))
    decreases msgs
  {
    if msgs != [] {
      TableSize(t, msgs[0]);
      OwnKeysKept(t, msgs[0]);
      Conservation(Next(t, msgs[0]), msgs[1..]);
      hide Next, OwnKeys;
    }
  }

  lemma OwnKeysKept(t: Table, msg: Summary)
    ensures OwnKeys(t) ==> OwnKeys(Next(t, msg))
  {
  }

  // ----- Keys do not interfere

  function KeyOfMsg(msg: Summary): Text {
    CString(msg.key)
  }

  function OfKey(msgs: seq<Summary>, k: Text): seq<Summary> {
    if msgs == [] then []
    else (if KeyOfMsg(msgs[0]) == k then [msgs[0]] else []) + OfKey(msgs[1..], k)
  }

  function Without(msgs: seq<Summary>, k: Text): seq<Summary> {
    if msgs == [] then []
    else (if KeyOfMsg(msgs[0]) == k then [] else [msgs[0]]) + Without(msgs[1..], k)
  }

  function Only(t: Table, k: Text): Table {
    if k in t then map[k := t[k]] else map[]
  }

  lemma OfKeyCons(x: Summary, msgs: seq<Summary>, k: Text)
    ensures OfKey([x] + msgs, k) == (if KeyOfMsg(x) == k then [x] else []) + OfKey(msgs, k)
    ensures Without([x] + msgs, k) == (if KeyOfMsg(x) == k then [] else [x]) + Without(msgs, k)
  {
    assert ([x] + msgs)[1..] == msgs;
  }

  lemma RunCons(t: Table, x: Summary, msgs: seq<Summary>)
    ensures var r := Run(Next(t, x), msgs); Run(t, [x] + msgs) == Result(r.table, Recorded(t, x) + r.log)
  {
    assert ([x] + msgs)[1..] == msgs;
  }

  /** A message acts on its own key's part of the table alone. */
  lemma StepFactor(t: Table, x: Summary, k: Text)
    ensures if KeyOfMsg(x) == k then
        && Next(t, x) - {k} == t - {k} && Only(Next(t, x), k) == Next(Only(t, k), x)
        && Recorded(t, x) == Recorded(Only(t, k), x)
      else
        && Next(t, x) - {k} == Next(t - {k}, x) && Only(Next(t, x), k) == Only(t, k)
        && Recorded(t, x) == Recorded(t - {k}, x)
  {
  }

  /** A run splits into what happens to one key and what happens to all the others. */
  lemma {:induction false} RunFactor(t: Table, msgs: seq<Summary>, k: Text)
    ensures var r, a, b := Run(t, msgs), Run(t - {k}, Without(msgs, k)), Run(Only(t, k), OfKey(msgs, k));
      && r.table - {k} == a.table && Only(r.table, k) == b.table
      && multiset(r.log) == multiset(a.log) + multiset(b.log)
    decreases msgs
  {
    hide Next, Recorded, Only, KeyOfMsg, Run, OfKey, Without;
    if msgs == [] {
      RunNil(t);
      RunNil(t - {k});
      RunNil(Only(t, k));
      NilOfKey(k);
    } else {
      var x, rest := msgs[0], msgs[1..];
      assert msgs == [x] + rest;
      RunFactor(Next(t, x), rest, k);
      StepFactor(t, x, k);
      OfKeyCons(x, rest, k);
      RunCons(t, x, rest);
      var r := Run(Next(t, x), rest);
      assert multiset(Recorded(t, x) + r.log) == multiset(Recorded(t, x)) + multiset(r.log);
      if KeyOfMsg(x) == k {
        RunCons(Only(t, k), x, OfKey(rest, k));
        assert [] + Without(rest, k) == Without(rest, k);
      } else {
        RunCons(t - {k}, x, Without(rest, k));
        assert [] + OfKey(rest, k) == OfKey(rest, k);
      }
    }
  }

  lemma RunNil(t: Table)
    ensures Run(t, []) == Result(t, [])
  {
  }

  lemma {:induction false} RunSnoc(t: Table, msgs: seq<Summary>, msg: Summary)
    ensures var r := Run(t, msgs);
      Run(t, msgs + [msg]) == Result(Next(r.table, msg), r.log + Recorded(r.table, msg))
    decreases msgs
  {
    hide Next, Recorded;
    if msgs == [] {
      assert msgs + [msg] == [msg] + [];
      RunCons(t, msg, []);
      RunNil(t);
      RunNil(Next(t, msg));
    } else {
      RunSnoc(Next(t, msgs[0]), msgs[1..], msg);
      assert (msgs + [msg])[1..] == msgs[1..] + [msg];
    }
  }

  lemma NilOfKey(k: Text)
    ensures OfKey([], k) == [] == Without([], k)
  {
  }

  // ----- Order independence

  /** Each key has exactly one request and one response of the matching type. */
  ghost predicate Paired(msgs: seq<Summary>) {
    forall i :: 0 <= i < |msgs| ==> IsPair(OfKey(msgs, KeyOfMsg(msgs[i])))
  }

  predicate IsPair(f: seq<Summary>) {
    |f| == 2 && Completes(f[0], f[1])
  }

  /** Request and response on the wire: D and 8, i and b, xr and xs. */
  predicate Responds(request: Summary, response: Summary) {
    || (request.msgType == 'D' as int && response.msgType == '8' as int)
    || (request.msgType == 'i' as int && response.msgType == 'b' as int)
    || (request.msgType == 'x' as int * 256 + 'r' as int && response.msgType == 'x' as int * 256 + 's' as int)
  }

  /** One of the two is a request and the other its kind of response, whichever came first. */
  predicate Completes(x: Summary, y: Summary) {
    Responds(x, y) || Responds(y, x)
  }

  /** The instant of a message, in nanoseconds. */
  function Instant(m: Summary): int {
    m.sec * 1000000000 + m.nsec
  }

  /** The instant of the response minus the instant of the request, whichever of the two messages is which. */
  function PairLatency(x: Summary, y: Summary): int {
    if Responds(x, y) then Instant(y) - Instant(x) else Instant(x) - Instant(y)
  }

  /** The code's classes of messages are those of the wire. */
  lemma ComplementIsWire(x: Summary, y: Summary)
    ensures IsComplement(x.msgType, y.msgType) <==> Completes(x, y)
    ensures Completes(x, y) ==> (IsBegin(x.msgType) <==> Responds(x, y)) && (IsBegin(y.msgType) <==> Responds(y, x))
    ensures !(Responds(x, y) && Responds(y, x))
  {
  }

  /** The time difference is one of instants, so intervals add up, across the turn of a second too. */
  lemma ClockLaws(x: Summary, y: Summary, z: Summary)
    ensures Diff(x.sec, x.nsec, y.sec, y.nsec) == Instant(y) - Instant(x)
    ensures Diff(x.sec, x.nsec, z.sec, z.nsec)
      == Diff(x.sec, x.nsec, y.sec, y.nsec) + Diff(y.sec, y.nsec, z.sec, z.nsec)
    ensures Diff(x.sec, 999999999, x.sec + 1, 0) == 1 == Diff(x.sec, x.nsec, x.sec, x.nsec + 1)
  {
  }

  /** The latencies of the pairs, one for each key in order of first appearance. */
  function PairLatencies(msgs: seq<Summary>): seq<int>
    decreases |msgs|
  {
    if msgs == [] then []
    else
      var f := OfKey(msgs, KeyOfMsg(msgs[0]));
      WithoutShorter(msgs);
      (if IsPair(f) then [PairLatency(f[0], f[1])] else []) + PairLatencies(Without(msgs, KeyOfMsg(msgs[0])))
  }

  lemma {:induction false} WithoutLength(msgs: seq<Summary>, k: Text)
    ensures |Without(msgs, k)| + |OfKey(msgs, k)| == |msgs|
  {
    if msgs != [] { WithoutLength(msgs[1..], k); }
  }

  lemma WithoutShorter(msgs: seq<Summary>)
    requires msgs != []
    ensures |Without(msgs, KeyOfMsg(msgs[0]))| < |msgs|
  {
    WithoutLength(msgs, KeyOfMsg(msgs[0]));
  }

  lemma {:induction false} OfKeyKeys(msgs: seq<Summary>, k: Text)
    ensures forall x :: x in OfKey(msgs, k) ==> KeyOfMsg(x) == k
    ensures forall x :: x in Without(msgs, k) ==> KeyOfMsg(x) != k
  {
    hide KeyOfMsg;
    if msgs != [] { OfKeyKeys(msgs[1..], k); }
  }

  lemma {:induction false} OfKeyWithout(msgs: seq<Summary>, k: Text, j: Text)
    requires j != k
    ensures OfKey(Without(msgs, k), j) == OfKey(msgs, j)
  {
    hide KeyOfMsg;
    if msgs != [] {
      var x, rest := msgs[0], msgs[1..];
      assert msgs == [x] + rest;
      OfKeyWithout(rest, k, j);
      OfKeyCons(x, rest, k);
      OfKeyCons(x, rest, j);
      if KeyOfMsg(x) == k {
        assert Without(msgs, k) == Without(rest, k) && OfKey(msgs, j) == OfKey(rest, j);
      } else {
        OfKeyCons(x, Without(rest, k), j);
      }
    }
  }

  lemma PairedWithout(msgs: seq<Summary>, k: Text)
    requires Paired(msgs)
    ensures Paired(Without(msgs, k))
  {
    hide IsPair, KeyOfMsg;
    var w := Without(msgs, k);
    forall i | 0 <= i < |w| ensures IsPair(OfKey(w, KeyOfMsg(w[i]))) {
      OfKeyKeys(msgs, k);
      OfKeyWithout(msgs, k, KeyOfMsg(w[i]));
      var n := IndexIn(msgs, k, i);
    }
  }

  lemma {:induction false} IndexIn(msgs: seq<Summary>, k: Text, i: nat) returns (n: nat)
    requires i < |Without(msgs, k)|
    ensures n < |msgs| && msgs[n] == Without(msgs, k)[i]
  {
    if KeyOfMsg(msgs[0]) == k {
      n := IndexIn(msgs[1..], k, i);
      n := n + 1;
    } else if i == 0 {
      n := 0;
    } else {
      n := IndexIn(msgs[1..], k, i - 1);
      n := n + 1;
    }
  }

  /** A pair on its own records its latency and leaves nothing, whichever message comes first. */
  lemma RunPair(f: seq<Summary>, k: Text)
    requires IsPair(f) && KeyOfMsg(f[0]) == KeyOfMsg(f[1]) == k
    ensures Run(map[], f) == Result(map[], [PairLatency(f[0], f[1])])
    ensures PairLatency(f[0], f[1]) == PairLatency(f[1], f[0])
  {
    hide Run, Next, Recorded, PairLatency, KeyOfMsg;
    PairSteps(f[0], f[1]);
    assert f == [f[0]] + [f[1]];
    RunCons(map[], f[0], [f[1]]);
    assert [f[1]] == [f[1]] + [];
    RunCons(Next(map[], f[0]), f[1], []);
    RunNil(map[]);
    assert [PairLatency(f[0], f[1])] + [] == [PairLatency(f[0], f[1])];
  }

  /** The first of a pair is stored, the second completes it. */
  lemma PairSteps(x: Summary, y: Summary)
    requires Completes(x, y) && KeyOfMsg(x) == KeyOfMsg(y)
    ensures var t := Next(map[], x);
      && Recorded(map[], x) == [] && Next(t, y) == map[] && Recorded(t, y) == [PairLatency(x, y)]
    ensures PairLatency(x, y) == PairLatency(y, x)
  {
    hide CString;
    ComplementIsWire(y, x);
  }

  lemma InParts(t: Table, k: Text, j: Text)
    ensures j in t ==> j in t - {k} || j in Only(t, k)
  {
  }

  lemma EmptyFromParts(t: Table, k: Text)
    requires t - {k} == map[] && Only(t, k) == map[]
    ensures t == map[]
  {
    hide Only;
    forall j ensures j !in t {
      InParts(t, k, j);
    }
  }

  lemma NoneParts(k: Text)
    ensures var none: Table := map[]; none - {k} == none && Only(none, k) == none
  {
  }

  lemma {:induction false} OfKeyCount(msgs: seq<Summary>, k: Text, x: Summary)
    ensures multiset(OfKey(msgs, k))[x] == if KeyOfMsg(x) == k then multiset(msgs)[x] else 0
    ensures multiset(Without(msgs, k))[x] == if KeyOfMsg(x) == k then 0 else multiset(msgs)[x]
  {
    hide KeyOfMsg;
    if msgs != [] {
      OfKeyCount(msgs[1..], k, x);
      assert msgs == [msgs[0]] + msgs[1..];
    }
  }

  lemma OfKeyPermutes(msgs: seq<Summary>, msgs': seq<Summary>, k: Text)
    requires multiset(msgs) == multiset(msgs')
    ensures multiset(OfKey(msgs, k)) == multiset(OfKey(msgs', k))
    ensures multiset(Without(msgs, k)) == multiset(Without(msgs', k))
  {
    forall x: Summary
      ensures multiset(OfKey(msgs, k))[x] == multiset(OfKey(msgs', k))[x]
      ensures multiset(Without(msgs, k))[x] == multiset(Without(msgs', k))[x]
    {
      OfKeyCount(msgs, k, x);
      OfKeyCount(msgs', k, x);
    }
  }

  lemma TwoPermuted(f: seq<Summary>, f': seq<Summary>)
    requires |f| == 2 && multiset(f) == multiset(f')
    ensures f' == f || f' == [f[1], f[0]]
  {
    assert |f'| == |multiset(f')| == |multiset(f)| == 2;
    assert f == [f[0], f[1]] && f' == [f'[0], f'[1]];
    assert multiset(f') == multiset{f'[0], f'[1]} && multiset(f) == multiset{f[0], f[1]};
    assert f'[0] in multiset(f) && f'[1] in multiset(f);
    if f'[0] == f[0] {
      assert multiset{f[0], f[1]} - multiset{f[0]} == multiset{f[1]};
      assert multiset{f'[0], f'[1]} - multiset{f'[0]} == multiset{f'[1]};
    } else {
      assert multiset{f[0], f[1]} - multiset{f[1]} == multiset{f[0]};
      assert multiset{f'[0], f'[1]} - multiset{f'[0]} == multiset{f'[1]};
    }
  }

  /** The order in which paired messages arrive changes no latency, only the order they are recorded in. */
  lemma {:induction false} PairedPermutes(msgs: seq<Summary>, msgs': seq<Summary>)
    requires Paired(msgs) && multiset(msgs) == multiset(msgs')
    ensures Run(map[], msgs').table == map[] && multiset(Run(map[], msgs').log) == multiset(PairLatencies(msgs))
    decreases |msgs|
  {
    if msgs == [] {
      assert |multiset(msgs')| == 0;
      assert msgs' == [];
    } else {
      var k := KeyOfMsg(msgs[0]);
      var f, f' := OfKey(msgs, k), OfKey(msgs', k);
      assert IsPair(f);
      hide Paired, Run, OfKey, Without, KeyOfMsg, PairLatency, Only;
      WithoutShorter(msgs);
      PairedWithout(msgs, k);
      OfKeyPermutes(msgs, msgs', k);
      PairedPermutes(Without(msgs, k), Without(msgs', k));
      OfKeyKeys(msgs, k);
      PairRuns(f, f', k);
      RunFactor(map[], msgs', k);
      NoneParts(k);
      EmptyFromParts(Run(map[], msgs').table, k);
    }
  }

  /** The two messages of a pair, in either order, record its latency and leave nothing behind. */
  lemma PairRuns(f: seq<Summary>, f': seq<Summary>, k: Text)
    requires IsPair(f) && multiset(f) == multiset(f') && forall x :: x in f ==> KeyOfMsg(x) == k
    ensures Run(map[], f') == Result(map[], [PairLatency(f[0], f[1])])
  {
    hide Run, KeyOfMsg, PairLatency;
    TwoPermuted(f, f');
    assert f[0] in f && f[1] in f;
    RunPair(f, k);
    RunPair(f', k);
  }

  /**
   Order independence: for messages in which each key has exactly one request and one matching
   response, every order of arrival records the same latencies and leaves the table empty.
   */
  lemma OrderIndependence(msgs: seq<Summary>, msgs': seq<Summary>)
    requires Paired(msgs) && multiset(msgs) == multiset(msgs')
    ensures var r, r' := Run(map[], msgs), Run(map[], msgs');
      r.table == map[] == r'.table && multiset(r.log) == multiset(r'.log) == multiset(PairLatencies(msgs))
  {
    PairedPermutes(msgs, msgs);
    PairedPermutes(msgs, msgs');
  }
}
