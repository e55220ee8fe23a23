/** What any run of messages comes to, key by key: which message completes which, and what stays open. */
module Settlement {
  import opened Bytes
  import opened Options
  import opened FixDetails
  import opened Latency

  /** The first message of f that completes x; |f| when there is none. */
  function FirstCompleting(x: Summary, f: seq<Summary>): (j: nat)
    ensures j <= |f| && (j < |f| ==> Completes(x, f[j]))
    ensures forall i :: 0 <= i < j ==> !Completes(x, f[i])
  {
    if f == [] || Completes(x, f[0]) then 0
    else
      var j := FirstCompleting(x, f[1..]);
      assert forall i :: 1 <= i < j + 1 ==> f[i] == f[1..][i - 1];
      j + 1
  }

  /** The intervals between messages that complete each other, and the message that still waits. */
  datatype Account = Account(intervals: seq<int>, open: Option<Summary>)

  /**
   The messages of one key: the first waits for the first that completes it, those in between count for
   nothing, and after the pair the same begins anew.
   */
  function Settle(f: seq<Summary>): Account
    decreases |f|
  {
    if f == [] then Account([], None)
    else
      var j := FirstCompleting(f[0], f[1..]);
      if j == |f| - 1 then Account([], Some(f[0]))
      else
        var r := Settle(f[j + 2..]);
        Account([PairLatency(f[0], f[j + 1])] + r.intervals, r.open)
  }

  /** The table that holds the open message of a key, and nothing else. */
  function OpenTable(open: Option<Summary>, k: Text): Table {
    match open
    case None => map[]
    case Some(m) => map[k := Some(Record(m.msgType, m.sec, m.nsec, k))]
  }

  ghost predicate AllOfKey(f: seq<Summary>, k: Text) {
    forall i :: 0 <= i < |f| ==> CString(f[i].key) == k
  }

  /** One message against a waiting one: it completes it, or it changes nothing. */
  lemma StepWaiting(x: Summary, y: Summary, k: Text)
    requires CString(x.key) == CString(y.key) == k
    ensures var t := OpenTable(Some(x), k);
      if Completes(x, y) then Next(t, y) == map[] && Recorded(t, y) == [PairLatency(x, y)]
      else Next(t, y) == t && Recorded(t, y) == []
  {
    ComplementIsWire(y, x);
    ClockLaws(x, y, y);
    ClockLaws(y, x, x);
  }

  lemma StepFirst(x: Summary, k: Text)
    requires CString(x.key) == k
    ensures Next(map[], x) == OpenTable(Some(x), k) && Recorded(map[], x) == []
  {
  }

  /** A waiting message outlasts all that does not complete it. */
  lemma {:induction false} Waits(x: Summary, mid: seq<Summary>, rest: seq<Summary>, k: Text)
    requires CString(x.key) == k && AllOfKey(mid, k)
    requires forall i :: 0 <= i < |mid| ==> !Completes(x, mid[i])
    ensures Run(OpenTable(Some(x), k), mid + rest) == Run(OpenTable(Some(x), k), rest)
    decreases |mid|
  {
    hide Run, Next, Recorded, OpenTable, Completes, CString;
    if mid == [] {
      assert mid + rest == rest;
    } else {
      var t := OpenTable(Some(x), k);
      StepWaiting(x, mid[0], k);
      assert mid + rest == [mid[0]] + (mid[1..] + rest);
      RunCons(t, mid[0], mid[1..] + rest);
      Waits(x, mid[1..], rest, k);
      assert [] + Run(t, mid[1..] + rest).log == Run(t, mid[1..] + rest).log;
    }
  }

  lemma SettlePair(f: seq<Summary>, j: nat)
    requires |f| > 0 && j == FirstCompleting(f[0], f[1..]) < |f| - 1
    ensures var r := Settle(f[j + 2..]); Settle(f) == Account([PairLatency(f[0], f[j + 1])] + r.intervals, r.open)
  {
    hide Completes, PairLatency, FirstCompleting;
  }

  lemma SettleNil()
    ensures Settle([]) == Account([], None)
  {
  }

  lemma SettleOpen(f: seq<Summary>)
    requires |f| > 0 && FirstCompleting(f[0], f[1..]) == |f| - 1
    ensures Settle(f) == Account([], Some(f[0]))
  {
    hide Completes, FirstCompleting;
  }

  /** Up to the message that completes the first: what is left is the first, waiting, and the rest. */
  lemma RunToCompleting(x: Summary, g: seq<Summary>, k: Text)
    requires CString(x.key) == k && AllOfKey(g, k)
    ensures Run(map[], [x] + g) == Run(OpenTable(Some(x), k), g[FirstCompleting(x, g)..])
  {
    hide Run, Next, Recorded, Completes, CString, FirstCompleting, OpenTable;
    var j, t := FirstCompleting(x, g), OpenTable(Some(x), k);
    StepFirst(x, k);
    RunCons(map[], x, g);
    assert [] + Run(t, g).log == Run(t, g).log;
    Waits(x, g[..j], g[j..], k);
    assert g == g[..j] + g[j..];
  }

  /** The messages of one key, from an empty table, come to their account. */
  lemma {:induction false} RunSettles(f: seq<Summary>, k: Text)
    requires AllOfKey(f, k)
    ensures Run(map[], f) == Result(OpenTable(Settle(f).open, k), Settle(f).intervals)
    decreases |f|
  {
    hide Run, Next, Recorded, Completes, CString, PairLatency, FirstCompleting, Settle, OpenTable;
    if f == [] {
      SettleNil();
      RunNil(map[]);
      OpenNone(k);
    } else {
      var x, g := f[0], f[1..];
      var j, t := FirstCompleting(x, g), OpenTable(Some(x), k);
      assert f == [x] + g;
      RunToCompleting(x, g, k);
      if j == |g| {
        assert g[j..] == [];
        RunNil(t);
        SettleOpen(f);
      } else {
        var rest := g[j + 1..];
        assert g[j..] == [g[j]] + rest && rest == f[j + 2..];
        StepWaiting(x, g[j], k);
        RunCons(t, g[j], rest);
        RunSettles(rest, k);
        SettlePair(f, j);
      }
    }
  }

  lemma OpenNone(k: Text)
    ensures OpenTable(None, k) == map[]
  {
  }

  lemma OfKeyAll(msgs: seq<Summary>, k: Text)
    ensures AllOfKey(OfKey(msgs, k), k)
  {
    OfKeyKeys(msgs, k);
    var f := OfKey(msgs, k);
    assert forall i :: 0 <= i < |f| ==> f[i] in f && KeyOfMsg(f[i]) == k;
  }

  /**
   After any run from an empty table, what is stored under a key is the earliest of its messages that none has
   completed yet, unchanged by repetitions and other messages that do not; and the values recorded are those of
   the other keys' messages by themselves and the intervals of this key's pairs.
   */
  lemma AnyRun(msgs: seq<Summary>, k: Text)
    ensures var r, a := Run(map[], msgs), Settle(OfKey(msgs, k));
      && (k in r.table <==> a.open.Some?)
      && (a.open.Some? ==>
            r.table[k] == Some(Record(a.open.value.msgType, a.open.value.sec, a.open.value.nsec, k)))
      && multiset(r.log) == multiset(Run(map[], Without(msgs, k)).log) + multiset(a.intervals)
  {
    hide Run, Settle, OfKey, Without;
    OfKeyAll(msgs, k);
    RunSettles(OfKey(msgs, k), k);
    RunFactor(map[], msgs, k);
    NoneParts(k);
  }

  /** The intervals of all keys, key by key in order of first appearance. */
  function AllIntervals(msgs: seq<Summary>): seq<int>
    decreases |msgs|
  {
    if msgs == [] then []
    else
      var k := KeyOfMsg(msgs[0]);
      WithoutShorter(msgs);
      Settle(OfKey(msgs, k)).intervals + AllIntervals(Without(msgs, k))
  }

  /** What any run records, from an empty table, is the intervals of all keys' pairs. */
  lemma {:induction false} AnyRunRecords(msgs: seq<Summary>)
    ensures multiset(Run(map[], msgs).log) == multiset(AllIntervals(msgs))
    decreases |msgs|
  {
    hide Run, Settle, OfKey, Without;
    if msgs == [] {
      RunNil(map[]);
    } else {
      var k := KeyOfMsg(msgs[0]);
      WithoutShorter(msgs);
      AnyRun(msgs, k);
      AnyRunRecords(Without(msgs, k));
    }
  }

  /**
   A repeated request: between a message and the first that completes it, others of the key change nothing. The
   one interval recorded for the key is that of the first and the last, and nothing stays under it.
   */
  lemma Repeated(msgs: seq<Summary>, k: Text, a: Summary, mid: seq<Summary>, b: Summary)
    requires OfKey(msgs, k) == [a] + mid + [b] && Completes(a, b)
    requires forall i :: 0 <= i < |mid| ==> !Completes(a, mid[i])
    ensures var r := Run(map[], msgs);
      && k !in r.table
      && multiset(r.log) == multiset(Run(map[], Without(msgs, k)).log)
           + multiset{if Responds(a, b) then Instant(b) - Instant(a) else Instant(a) - Instant(b)}
  {
    hide Run, OfKey, Without, Completes;
    AnyRun(msgs, k);
    var f := [a] + mid + [b];
    SettlesOnce(a, mid, b);
    assert multiset([PairLatency(a, b)]) == multiset{PairLatency(a, b)};
  }

  lemma SettlesOnce(a: Summary, mid: seq<Summary>, b: Summary)
    requires Completes(a, b) && forall i :: 0 <= i < |mid| ==> !Completes(a, mid[i])
    ensures Settle([a] + mid + [b]) == Account([PairLatency(a, b)], None)
  {
    hide Completes, PairLatency, FirstCompleting, Settle;
    var f := [a] + mid + [b];
    assert f[1..] == mid + [b];
    FirstIsLast(a, mid, b);
    SettlePair(f, |mid|);
    assert f[|mid| + 2..] == [];
    SettleNil();
    assert [PairLatency(a, b)] + [] == [PairLatency(a, b)];
  }

  lemma FirstIsLast(a: Summary, mid: seq<Summary>, b: Summary)
    requires Completes(a, b) && forall i :: 0 <= i < |mid| ==> !Completes(a, mid[i])
    ensures FirstCompleting(a, mid + [b]) == |mid|
  {
    hide Completes;
    var g := mid + [b];
    assert g[|mid|] == b && forall i :: 0 <= i < |mid| ==> g[i] == mid[i];
  }

  /** A pair settles to its one interval. */
  lemma {:induction false} PairsSettle(msgs: seq<Summary>)
    requires Paired(msgs)
    ensures AllIntervals(msgs) == PairLatencies(msgs)
    decreases |msgs|
  {
    hide Paired, OfKey, Without, Completes, PairLatency, KeyOfMsg;
    if msgs != [] {
      var k := KeyOfMsg(msgs[0]);
      var f := OfKey(msgs, k);
      assert IsPair(f) by { PairedFirst(msgs); }
      WithoutShorter(msgs);
      PairedWithout(msgs, k);
      PairsSettle(Without(msgs, k));
      assert f == [f[0]] + [] + [f[1]];
      SettlesOnce(f[0], [], f[1]);
    }
  }

  lemma PairedFirst(msgs: seq<Summary>)
    requires Paired(msgs) && msgs != []
    ensures IsPair(OfKey(msgs, KeyOfMsg(msgs[0])))
  {
  }
}
