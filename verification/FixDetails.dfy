/** What is kept of a parsed message, and the summary handed to the latency thread. */
module FixDetails {
  import opened Bytes
  import opened FixParser
  import opened Opt = Options

  const CL_ORD_ID := 11
  const MSG_TYPE := 35
  const SECURITY_ID := 48
  const SENDER_COMP_ID := 49
  const SYMBOL := 55
  const TARGET_COMP_ID := 56
  const QUOTE_ID := 117
  const EXEC_TYPE := 150
  const QUOTE_STATUS := 297
  const UNDERLYING_SECURITY_ID := 309
  const UNDERLYING_SYMBOL := 311

  const EXEC_TYPE_NEW := 48        // '0'
  const QUOTE_STATUS_ACCEPTED := 0

  /** INT_OF over two signed characters. */
  function IntOf(x: Byte, y: Byte): int {
    Signed(x) * 256 + Signed(y)
  }

  const NEW_ORDER_SINGLE := 68     // 'D'
  const EXECUTION_REPORT := 56     // '8'
  const MASS_QUOTE := 105          // 'i'
  const MASS_QUOTE_ACK := 98       // 'b'
  const TRACE_REQ := 30834         // "xr"
  const TRACE_RSP := 30835         // "xs"

  // ----- str2int

  predicate IsSpace(b: Byte) {
    b == 32 || 9 <= b <= 13
  }

  /** The digits of atoi: stops at the first byte that is not a digit. */
  function DigitRun(s: Text, acc: nat): nat {
    if s == [] || !IsDigit(s[0]) then acc else DigitRun(s[1..], acc * 10 + (s[0] - ZERO))
  }

  function Atoi(s: Text): int {
    if s != [] && IsSpace(s[0]) then Atoi(s[1..])
    else if s != [] && s[0] == 45 then 0 - DigitRun(s[1..], 0)
    else if s != [] && s[0] == 43 then DigitRun(s[1..], 0)
    else DigitRun(s, 0)
  }

  function Str2Int(value: Text): int {
    if |value| > 31 then -1 else Atoi(value)
  }

  // ----- fix_details_t

  datatype Details = Details(
    messageType: int, execType: int, quoteStatus: int,
    senderCompId: Text, clOrdId: Text, targetCompId: Text, symbol: Text, securityId: Text)

  /** memset to 0 */
  const BLANK := Details(0, 0, 0, [], [], [], [], [])

  /** The message type a value of tag 35 sets, unless it has neither one nor two characters. */
  function MessageType(value: Text, was: int): int {
    if |value| == 1 then Signed(value[0])
    else if |value| == 2 then IntOf(value[0], value[1])
    else was
  }

  /** The character at a value: the SOH that ends it when it is empty. */
  function FirstChar(value: Text): int {
    if value == [] then SOH else Signed(value[0])
  }

  /** The effect of one tag on the details. */
  function Handle(d: Details, f: Field): Details {
    if f.tag == MSG_TYPE then d.(messageType := MessageType(f.value, d.messageType))
    else if f.tag == EXEC_TYPE then d.(execType := FirstChar(f.value))
    else if f.tag == QUOTE_STATUS then d.(quoteStatus := Str2Int(f.value))
    else if f.tag == CL_ORD_ID || f.tag == QUOTE_ID then d.(clOrdId := f.value)
    else if f.tag == SENDER_COMP_ID then d.(senderCompId := f.value)
    else if f.tag == TARGET_COMP_ID then d.(targetCompId := f.value)
    else if f.tag == SYMBOL || f.tag == UNDERLYING_SYMBOL then d.(symbol := f.value)
    else if f.tag == SECURITY_ID || f.tag == UNDERLYING_SECURITY_ID then d.(securityId := f.value)
    else d
  }

  /** The details after every tag callback of a message. */
  function DetailsOf(fields: seq<Field>): Details {
    if fields == [] then BLANK else Handle(DetailsOf(fields[..|fields| - 1]), fields[|fields| - 1])
  }

  /** fix_details_t as handle_tag fills it in place. */
  class FixDetails {
    var messageType: int
    var execType: int
    var quoteStatus: int
    var senderCompId: Text
    var clOrdId: Text
    var targetCompId: Text
    var symbol: Text
    var securityId: Text

    function Value(): Details
      reads this
    {
      Details(messageType, execType, quoteStatus, senderCompId, clOrdId, targetCompId, symbol, securityId)
    }

    constructor ()
      ensures Value() == BLANK
    {
      messageType, execType, quoteStatus := 0, 0, 0;
      senderCompId, clOrdId, targetCompId, symbol, securityId := [], [], [], [], [];
    }

    method HandleTag(tag: nat, value: Text)
      modifies this
      ensures Value() == Handle(old(Value()), Field(tag, value))
    {
      if tag == MSG_TYPE {
        if |value| == 1 {
          messageType := Signed(value[0]);
        } else if |value| == 2 {
          messageType := IntOf(value[0], value[1]);
        }
      } else if tag == EXEC_TYPE {
        execType := FirstChar(value);
      } else if tag == QUOTE_STATUS {
        quoteStatus := Str2Int(value);
      } else if tag == CL_ORD_ID || tag == QUOTE_ID {
        clOrdId := value;
      } else if tag == SENDER_COMP_ID {
        senderCompId := value;
      } else if tag == TARGET_COMP_ID {
        targetCompId := value;
      } else if tag == SYMBOL || tag == UNDERLYING_SYMBOL {
        symbol := value;
      } else if tag == SECURITY_ID || tag == UNDERLYING_SECURITY_ID {
        securityId := value;
      }
    }
  }

  /** The value of the last field whose tag is one of two, empty when there is none. */
  function LastOf(fields: seq<Field>, a: nat, b: nat): Text {
    if fields == [] then []
    else if fields[|fields| - 1].tag in {a, b} then fields[|fields| - 1].value
    else LastOf(fields[..|fields| - 1], a, b)
  }

  /** The value of the last field with this tag, if there is one; of tag 35 only one or two characters count. */
  function LastNumeric(fields: seq<Field>, tag: nat): Option<Text> {
    if fields == [] then None
    else
      var last := fields[|fields| - 1];
      if last.tag == tag && (tag == MSG_TYPE ==> 1 <= |last.value| <= 2) then Some(last.value)
      else LastNumeric(fields[..|fields| - 1], tag)
  }

  /** Repeated tags: the last one wins, and each alias writes the same slot. */
  lemma {:induction false} LastTagWins(fields: seq<Field>)
    ensures var d := DetailsOf(fields);
      && d.senderCompId == LastOf(fields, SENDER_COMP_ID, SENDER_COMP_ID)
      && d.targetCompId == LastOf(fields, TARGET_COMP_ID, TARGET_COMP_ID)
      && d.clOrdId == LastOf(fields, CL_ORD_ID, QUOTE_ID)
      && d.symbol == LastOf(fields, SYMBOL, UNDERLYING_SYMBOL)
      && d.securityId == LastOf(fields, SECURITY_ID, UNDERLYING_SECURITY_ID)
  {
    if fields != [] {
      LastTagWins(fields[..|fields| - 1]);
    }
  }

  lemma {:induction false} LastNumberWins(fields: seq<Field>)
    ensures var d := DetailsOf(fields);
      && d.messageType == (match LastNumeric(fields, MSG_TYPE) case None => 0 case Some(v) => MessageType(v, 0))
      && d.execType == (match LastNumeric(fields, EXEC_TYPE) case None => 0 case Some(v) => FirstChar(v))
      && d.quoteStatus == (match LastNumeric(fields, QUOTE_STATUS) case None => 0 case Some(v) => Str2Int(v))
  {
    hide Str2Int;
    if fields != [] {
      LastNumberWins(fields[..|fields| - 1]);
    }
  }

  lemma {:induction false} SlotsFromFields(fields: seq<Field>, b: Byte)
    requires Lacks(fields, b)
    ensures var d := DetailsOf(fields);
      b !in d.senderCompId && b !in d.targetCompId && b !in d.clOrdId && b !in d.symbol && b !in d.securityId
  {
    if fields != [] {
      SlotsFromFields(fields[..|fields| - 1], b);
    }
  }

  // ----- process_for_latency_measurement

  /** A summary: the time stamp of the packet, the message type and the matching key. */
  datatype Summary = Summary(sec: nat, nsec: nat, msgType: int, key: Text)

  predicate IsRequest(msgType: int) {
    msgType == NEW_ORDER_SINGLE || msgType == MASS_QUOTE || msgType == TRACE_REQ
  }

  predicate IsResponse(msgType: int) {
    msgType == EXECUTION_REPORT || msgType == MASS_QUOTE_ACK || msgType == TRACE_RSP
  }

  /** Whether the message takes part in latency measurement. */
  predicate ShouldProcess(d: Details) {
    || IsRequest(d.messageType)
    || (d.messageType == EXECUTION_REPORT && d.execType == EXEC_TYPE_NEW)
    || (d.messageType == MASS_QUOTE_ACK && d.quoteStatus == QUOTE_STATUS_ACCEPTED)
    || d.messageType == TRACE_RSP
  }

  function Instrument(d: Details): Text {
    if d.symbol != [] then d.symbol else if d.securityId != [] then d.securityId else []
  }

  function JoinKey(remote: Text, local: Text, instruction: Text, instrument: Text): Text {
    StrNCpy(remote) + [BAR] + StrNCpy(local) + [BAR] + StrNCpy(instruction) + [BAR] + StrNCpy(instrument)
  }

  /** The key: remote party, local party, instruction and instrument. The request's sender is the remote party. */
  function KeyOf(d: Details): Text {
    if IsRequest(d.messageType) then JoinKey(d.senderCompId, d.targetCompId, d.clOrdId, Instrument(d))
    else JoinKey(d.targetCompId, d.senderCompId, d.clOrdId, Instrument(d))
  }

  /** The summaries, at most one, that a parse outcome leads to. */
  function Summaries(o: Outcome, sec: nat, nsec: nat): seq<Summary> {
    var d := DetailsOf(o.fields);
    if o.result == OK && ShouldProcess(d) then [Summary(sec, nsec, d.messageType, KeyOf(d))] else []
  }

  function BarAt(s: Text): nat {
    if s == [] || s[0] == BAR then 0 else 1 + BarAt(s[1..])
  }

  lemma {:induction false} BarAfter(a: Text, x: Text)
    requires BAR !in a
    ensures BarAt(a + [BAR] + x) == |a|
  {
    if a != [] {
      assert (a + [BAR] + x)[1..] == a[1..] + [BAR] + x;
      BarAfter(a[1..], x);
    }
  }

  lemma BarSplit(a: Text, x: Text, b: Text, y: Text)
    requires BAR !in a && BAR !in b && a + [BAR] + x == b + [BAR] + y
    ensures a == b && x == y
  {
    var s, t := a + [BAR] + x, b + [BAR] + y;
    BarAfter(a, x);
    BarAfter(b, y);
    assert a == s[..|a|] && b == t[..|b|];
    assert x == s[|a| + 1..] && y == t[|b| + 1..];
  }

  lemma {:induction false} StrNCpyHas(s: Text, b: Byte)
    requires b != NUL
    ensures b !in s ==> b !in StrNCpy(s)
    ensures NUL in StrNCpy(s) <==> NUL in s
    ensures CString(StrNCpy(s)) == CString(s)
  {
    if s != [] {
      var r := StrNCpy(s);
      if s[0] == NUL {
        assert r[0] == NUL;
      } else {
        StrNCpyHas(s[1..], b);
        assert r == [s[0]] + StrNCpy(s[1..]) && r[1..] == StrNCpy(s[1..]);
        assert s == [s[0]] + s[1..];
      }
    }
  }

  lemma JoinGroups(a: seq<Text>)
    requires |a| == 4
    ensures JoinKey(a[0], a[1], a[2], a[3])
      == StrNCpy(a[0]) + [BAR] + (StrNCpy(a[1]) + [BAR] + (StrNCpy(a[2]) + [BAR] + StrNCpy(a[3])))
  {
  }

  /** The first three components hold no bar; the last one may. */
  predicate BarFree(a: seq<Text>) {
    |a| == 4 && forall i :: 0 <= i < 3 ==> BAR !in a[i]
  }

  /** As bytes, keys agree exactly when every component is copied alike: whatever follows a NUL in one is lost. */
  lemma KeyInjective(a: seq<Text>, b: seq<Text>)
    requires BarFree(a) && BarFree(b)
    ensures JoinKey(a[0], a[1], a[2], a[3]) == JoinKey(b[0], b[1], b[2], b[3])
      <==> forall i :: 0 <= i < 4 ==> StrNCpy(a[i]) == StrNCpy(b[i])
  {
    hide JoinKey, StrNCpy;
    JoinGroups(a);
    JoinGroups(b);
    forall i | 0 <= i < 3 ensures BAR !in StrNCpy(a[i]) && BAR !in StrNCpy(b[i]) {
      StrNCpyHas(a[i], BAR);
      StrNCpyHas(b[i], BAR);
    }
    var x, y := seq(4, i requires 0 <= i < 4 => StrNCpy(a[i])), seq(4, i requires 0 <= i < 4 => StrNCpy(b[i]));
    if JoinKey(a[0], a[1], a[2], a[3]) == JoinKey(b[0], b[1], b[2], b[3]) {
      BarSplit(x[0], x[1] + [BAR] + (x[2] + [BAR] + x[3]), y[0], y[1] + [BAR] + (y[2] + [BAR] + y[3]));
      BarSplit(x[1], x[2] + [BAR] + x[3], y[1], y[2] + [BAR] + y[3]);
      BarSplit(x[2], x[3], y[2], y[3]);
    }
  }

  /** What the latency thread sees: everything behind the first NUL is lost, later components included. */
  function Visible(a: seq<Text>): (v: seq<Text>)
    ensures |v| <= |a| && (a != [] ==> v != [])
  {
    if a == [] then []
    else if NUL in a[0] then [CString(a[0])]
    else [a[0]] + Visible(a[1..])
  }

  function Joined(v: seq<Text>): Text {
    if v == [] then []
    else if |v| == 1 then v[0]
    else v[0] + [BAR] + Joined(v[1..])
  }

  /** The components as they are written, with bars between them. */
  function WrittenKey(a: seq<Text>): Text {
    if a == [] then []
    else if |a| == 1 then StrNCpy(a[0])
    else StrNCpy(a[0]) + [BAR] + WrittenKey(a[1..])
  }

  lemma CStringStep(x: Text, rest: Text)
    requires x != []
    ensures CString(x) == if x[0] == NUL then [] else [x[0]] + CString(x[1..])
    ensures CString(x + rest) == if x[0] == NUL then [] else [x[0]] + CString(x[1..] + rest)
  {
    assert (x + rest)[1..] == x[1..] + rest;
  }

  lemma {:induction false} CStringThen(x: Text, rest: Text)
    ensures CString(x + rest) == if NUL in x then CString(x) else x + CString(rest)
  {
    hide CString;
    if x == [] {
      assert x + rest == rest && x + CString(rest) == CString(rest);
    } else {
      CStringStep(x, rest);
      assert x == [x[0]] + x[1..];
      if x[0] != NUL {
        CStringThen(x[1..], rest);
        assert [x[0]] + (x[1..] + CString(rest)) == x + CString(rest);
      }
    }
  }

  lemma {:induction false} CStringWritten(a: seq<Text>)
    requires a != []
    ensures CString(WrittenKey(a)) == Joined(Visible(a))
  {
    hide StrNCpy, CString;
    StrNCpyHas(a[0], BAR);
    CStringPlain(a[0]);
    if NUL !in a[0] { StrNCpyCopies(a[0]); }
    if |a| == 1 {
      assert a[1..] == [] && Visible([]) == [];
      assert [a[0]] + Visible([]) == [a[0]];
    } else {
      var rest := [BAR] + WrittenKey(a[1..]);
      assert WrittenKey(a) == StrNCpy(a[0]) + rest;
      CStringThen(StrNCpy(a[0]), rest);
      CStringBar(WrittenKey(a[1..]));
      CStringWritten(a[1..]);
      if NUL !in a[0] {
        var v := Visible(a[1..]);
        assert ([a[0]] + v)[1..] == v;
        assert a[0] + ([BAR] + Joined(v)) == a[0] + [BAR] + Joined(v);
      }
    }
  }

  lemma CStringPlain(x: Text)
    ensures NUL !in x ==> CString(x) == x
  {
    if NUL !in x {
      CStringOf(x, []);
      assert x + [] == x;
    }
  }

  lemma CStringBar(s: Text)
    ensures CString([BAR] + s) == [BAR] + CString(s)
  {
    assert ([BAR] + s)[1..] == s;
  }

  /** Joined components come apart again if only the last of at most n may hold a bar. */
  lemma {:induction false} JoinedInjective(v: seq<Text>, w: seq<Text>, n: nat)
    requires 0 < |v| <= n && 0 < |w| <= n && Joined(v) == Joined(w)
    requires forall i :: 0 <= i < n - 1 ==> (i < |v| ==> BAR !in v[i]) && (i < |w| ==> BAR !in w[i])
    ensures v == w
    decreases n
  {
    JoinedBar(v);
    JoinedBar(w);
    if |v| > 1 && |w| > 1 {
      BarSplit(v[0], Joined(v[1..]), w[0], Joined(w[1..]));
      JoinedInjective(v[1..], w[1..], n - 1);
      assert v == [v[0]] + v[1..] && w == [w[0]] + w[1..];
    }
  }

  lemma JoinedBar(v: seq<Text>)
    ensures |v| == 1 ==> Joined(v) == v[0]
    ensures |v| > 1 ==> BAR in Joined(v)
  {
    if |v| > 1 { assert Joined(v)[|v[0]|] == BAR; }
  }

  lemma {:induction false} VisibleBars(a: seq<Text>, i: nat)
    requires i < |Visible(a)| && i < |a| && BAR !in a[i]
    ensures BAR !in Visible(a)[i]
  {
    if NUL in a[0] {
      CStringPart(a[0]);
    } else if i > 0 {
      VisibleBars(a[1..], i - 1);
    }
  }

  lemma {:induction false} CStringPart(x: Text)
    ensures CString(x) <= x
  {
    if x != [] && x[0] != NUL { CStringPart(x[1..]); }
  }

  /** The latency thread's key is the visible parts of the components, with bars between them. */
  lemma VisibleKey(a: seq<Text>)
    requires |a| == 4
    ensures CString(JoinKey(a[0], a[1], a[2], a[3])) == Joined(Visible(a))
  {
    hide CString, StrNCpy, Visible, Joined, JoinKey;
    WrittenIsKey(a);
    CStringWritten(a);
  }

  /** For the latency thread, keys agree exactly when the visible parts of their components do. */
  lemma KeysAgreeIffVisible(a: seq<Text>, b: seq<Text>)
    requires BarFree(a) && BarFree(b)
    ensures CString(JoinKey(a[0], a[1], a[2], a[3])) == CString(JoinKey(b[0], b[1], b[2], b[3]))
      <==> Visible(a) == Visible(b)
  {
    hide CString, StrNCpy, Visible, Joined;
    VisibleKey(a);
    VisibleKey(b);
    forall i | 0 <= i < 3
      ensures (i < |Visible(a)| ==> BAR !in Visible(a)[i]) && (i < |Visible(b)| ==> BAR !in Visible(b)[i])
    {
      if i < |Visible(a)| { VisibleBars(a, i); }
      if i < |Visible(b)| { VisibleBars(b, i); }
    }
    if Joined(Visible(a)) == Joined(Visible(b)) { JoinedInjective(Visible(a), Visible(b), 4); }
  }

  lemma WrittenIsKey(a: seq<Text>)
    requires |a| == 4
    ensures WrittenKey(a) == JoinKey(a[0], a[1], a[2], a[3])
  {
    hide StrNCpy;
    JoinGroups(a);
    assert a[1..][1..] == a[2..] && a[2..][1..] == a[3..];
    assert WrittenKey(a[3..]) == StrNCpy(a[3]);
    assert WrittenKey(a[2..]) == StrNCpy(a[2]) + [BAR] + WrittenKey(a[3..]);
    assert WrittenKey(a[1..]) == StrNCpy(a[1]) + [BAR] + WrittenKey(a[2..]);
  }

  /** A NUL in the first component hides all the others. */
  lemma NulCollides()
    ensures CString(JoinKey([65, NUL], [66], [67], [68])) == CString(JoinKey([65, NUL], [69], [70], [71])) == [65]
  {
    var a, b := [[65, NUL], [66], [67], [68]], [[65, NUL], [69], [70], [71]];
    assert CString([65, NUL]) == [65] by { assert [65, NUL][1..] == [NUL]; }
    assert NUL in a[0] && NUL in b[0];
    VisibleKey(a);
    VisibleKey(b);
    assert Visible(a) == [[65]] == Visible(b) && Joined([[65]]) == [65];
  }

  /** A bar in a component but the last makes it run into the next. */
  lemma BarCollides()
    ensures JoinKey([65, BAR, 66], [67], [68], [69]) == JoinKey([65], [66, BAR, 67], [68], [69])
  {
    hide JoinKey, StrNCpy;
    JoinPlain([65, BAR, 66], [67], [68], [69]);
    JoinPlain([65], [66, BAR, 67], [68], [69]);
  }

  /** Four components without NUL. */
  predicate Plain(a: seq<Text>) {
    |a| == 4 && forall i :: 0 <= i < 4 ==> NUL !in a[i]
  }

  function KeyOfParts(a: seq<Text>): Text
    requires |a| == 4
  {
    JoinKey(a[0], a[1], a[2], a[3])
  }

  /** Another four components have the same key. */
  ghost predicate Confused(a: seq<Text>)
    requires |a| == 4
  {
    exists b :: Plain(b) && b != a && KeyOfParts(b) == KeyOfParts(a)
  }

  /** Bars are counted: three between the components, and those inside them. */
  lemma BarCount(a: seq<Text>)
    requires Plain(a)
    ensures multiset(KeyOfParts(a))[BAR]
      == 3 + multiset(a[0])[BAR] + multiset(a[1])[BAR] + multiset(a[2])[BAR] + multiset(a[3])[BAR]
  {
    hide JoinKey;
    JoinPlain(a[0], a[1], a[2], a[3]);
  }

  lemma PlainJoined(a: seq<Text>)
    requires Plain(a)
    ensures KeyOfParts(a) == Joined(a)
  {
    hide JoinKey;
    JoinPlain(a[0], a[1], a[2], a[3]);
    assert a[1..][1..] == a[2..] && a[2..][1..] == a[3..] && Joined(a[3..]) == a[3];
    assert Joined(a[2..]) == a[2] + [BAR] + a[3];
    assert Joined(a[1..]) == a[1] + [BAR] + Joined(a[2..]);
    assert a[0] + [BAR] + (a[1] + [BAR] + (a[2] + [BAR] + a[3])) == a[0] + [BAR] + a[1] + [BAR] + a[2] + [BAR] + a[3];
  }

  /** Component i up to a bar in it, and the rest of it in front of the next component. */
  function Moved(a: seq<Text>, i: nat, p: nat): seq<Text>
    requires i + 1 < |a| && p < |a[i]|
  {
    a[i := a[i][..p]][i + 1 := a[i][p + 1..] + [BAR] + a[i + 1]]
  }

  lemma {:induction false} MovedJoins(a: seq<Text>, i: nat, p: nat)
    requires i + 1 < |a| && p < |a[i]| && a[i][p] == BAR
    ensures Joined(Moved(a, i, p)) == Joined(a)
    decreases i
  {
    var b := Moved(a, i, p);
    if i == 0 {
      var u, v := a[0][..p], a[0][p + 1..];
      var rest := if |a| == 2 then [] else [BAR] + Joined(a[2..]);
      assert a[1..][1..] == a[2..] && b[1..][1..] == a[2..];
      assert Joined(a[1..]) == a[1] + rest && Joined(b[1..]) == v + [BAR] + a[1] + rest;
      assert a[0] == u + [BAR] + v;
      assert u + [BAR] + v + [BAR] + (a[1] + rest) == u + [BAR] + (v + [BAR] + a[1] + rest);
    } else {
      MovedJoins(a[1..], i - 1, p);
      assert b[1..] == Moved(a[1..], i - 1, p);
    }
  }

  /** A bar in a component can be read as the end of that component, or, in the last, as belonging to the one before. */
  lemma BarConfuses(a: seq<Text>, i: nat)
    requires Plain(a) && i < 4 && BAR in a[i]
    ensures Confused(a)
  {
    hide JoinKey, Joined;
    var p :| 0 <= p < |a[i]| && a[i][p] == BAR;
    var b: seq<Text>;
    if i < 3 {
      b := Moved(a, i, p);
      MovedJoins(a, i, p);
      assert |b[i]| < |a[i]|;
    } else {
      b := a[2 := a[2] + [BAR] + a[3][..p]][3 := a[3][p + 1..]];
      MovedJoins(b, 2, |a[2]|);
      assert b[2][..|a[2]|] == a[2] && b[2][|a[2]| + 1..] == a[3][..p];
      assert a[3] == a[3][..p] + [BAR] + a[3][p + 1..];
      assert Moved(b, 2, |a[2]|) == a;
      assert |b[3]| < |a[3]|;
    }
    assert Plain(b);
    PlainJoined(a);
    PlainJoined(b);
  }

  /** Among components without NUL, a key belongs to others as well exactly when one of its own holds a bar. */
  lemma ConfusedIffBar(a: seq<Text>)
    requires Plain(a)
    ensures Confused(a) <==> exists i :: 0 <= i < 4 && BAR in a[i]
  {
    hide JoinKey;
    if i :| 0 <= i < 4 && BAR in a[i] {
      BarConfuses(a, i);
    } else if b :| Plain(b) && b != a && KeyOfParts(b) == KeyOfParts(a) {
      BarCount(a);
      BarCount(b);
      assert forall i :: 0 <= i < 4 ==> BAR !in b[i];
      KeyInjective(a, b);
      forall i | 0 <= i < 4 ensures a[i] == b[i] {
        StrNCpyCopies(a[i]);
        StrNCpyCopies(b[i]);
      }
      assert false;
    }
  }

  /** The instrument as the last fields that name one give it. */
  function LastInstrument(fields: seq<Field>): Text {
    var symbol := LastOf(fields, SYMBOL, UNDERLYING_SYMBOL);
    if symbol != [] then symbol else LastOf(fields, SECURITY_ID, UNDERLYING_SECURITY_ID)
  }

  /** The response swaps the request's sender and target and repeats its instruction and instrument. */
  predicate Answers(request: seq<Field>, response: seq<Field>) {
    && LastOf(response, TARGET_COMP_ID, TARGET_COMP_ID) == LastOf(request, SENDER_COMP_ID, SENDER_COMP_ID)
    && LastOf(response, SENDER_COMP_ID, SENDER_COMP_ID) == LastOf(request, TARGET_COMP_ID, TARGET_COMP_ID)
    && LastOf(response, CL_ORD_ID, QUOTE_ID) == LastOf(request, CL_ORD_ID, QUOTE_ID)
    && LastInstrument(response) == LastInstrument(request)
  }

  /** A response that answers a request has its key, and without NULs or bars in the request no other response has. */
  lemma KeyAgreement(request: seq<Field>, response: seq<Field>)
    requires IsRequest(DetailsOf(request).messageType) && IsResponse(DetailsOf(response).messageType)
    ensures Answers(request, response) ==> KeyOf(DetailsOf(request)) == KeyOf(DetailsOf(response))
    ensures Lacks(request, NUL) && Lacks(response, NUL) && Lacks(request, BAR) ==>
      (Answers(request, response) <==> KeyOf(DetailsOf(request)) == KeyOf(DetailsOf(response)))
  {
    hide JoinKey, DetailsOf, LastOf, Lacks, Confused;
    LastTagWins(request);
    LastTagWins(response);
    var d, e := DetailsOf(request), DetailsOf(response);
    var a := [d.senderCompId, d.targetCompId, d.clOrdId, Instrument(d)];
    var b := [e.targetCompId, e.senderCompId, e.clOrdId, Instrument(e)];
    assert KeyOf(d) == KeyOfParts(a) && KeyOf(e) == KeyOfParts(b);
    if Lacks(request, NUL) && Lacks(response, NUL) && Lacks(request, BAR) {
      SlotsFromFields(request, NUL);
      SlotsFromFields(response, NUL);
      SlotsFromFields(request, BAR);
      ConfusedIffBar(a);
      NotConfused(a, b);
      assert Answers(request, response) <==> a == b;
    }
  }

  lemma NotConfused(a: seq<Text>, b: seq<Text>)
    requires |a| == 4 && Plain(b) && !Confused(a)
    ensures KeyOfParts(a) == KeyOfParts(b) <==> a == b
  {
  }

  lemma JoinPlain(remote: Text, local: Text, instruction: Text, instrument: Text)
    requires NUL !in remote && NUL !in local && NUL !in instruction && NUL !in instrument
    ensures JoinKey(remote, local, instruction, instrument)
      == remote + [BAR] + local + [BAR] + instruction + [BAR] + instrument
  {
    StrNCpyCopies(remote);
    StrNCpyCopies(local);
    StrNCpyCopies(instruction);
    StrNCpyCopies(instrument);
  }

  // ----- The record in the ring buffer

  /** sizeof(vmars_fix_message_summary_t) */
  const SUMMARY_HEADER_LEN := 24

  /** The length claimed for a summary whose key components have these lengths. */
  function ClaimLength(remote: Text, local: Text, instruction: Text, instrument: Text): nat {
    SUMMARY_HEADER_LEN + |remote| + 1 + |local| + 1 + |instruction| + 1 + |instrument| + 1
  }

  /** The bytes written into the claimed record. */
  function Serialize(s: Summary): Text
    requires s.msgType >= 0
  {
    LE(s.sec, 8) + LE(s.nsec, 8) + LE(s.msgType, 4) + LE(|s.key|, 4) + s.key + [NUL]
  }

  /** The record as the latency thread reads it: the key is a C string. */
  function Deserialize(data: Text): Summary
    requires |data| >= SUMMARY_HEADER_LEN
  {
    Summary(FromLE(data[..8]), FromLE(data[8..16]), FromLE(data[16..20]), CString(data[24..]))
  }

  /** The bytes written fill exactly the length claimed. */
  lemma RecordFills(sec: nat, nsec: nat, msgType: nat, remote: Text, local: Text, instruction: Text, instrument: Text)
    ensures |Serialize(Summary(sec, nsec, msgType, JoinKey(remote, local, instruction, instrument)))|
      == ClaimLength(remote, local, instruction, instrument)
  {
  }

  /** The latency thread reads back the summary that was written, its key up to the first NUL. */
  lemma SummaryRoundTrip(s: Summary)
    requires s.sec < Pow256(8) && s.nsec < Pow256(8) && 0 <= s.msgType < Pow256(4)
    ensures |Serialize(s)| >= SUMMARY_HEADER_LEN && Deserialize(Serialize(s)) == s.(key := CString(s.key))
  {
    var data := Serialize(s);
    LERoundTrip(s.sec, 8);
    LERoundTrip(s.nsec, 8);
    LERoundTrip(s.msgType, 4);
    assert data[..8] == LE(s.sec, 8);
    assert data[8..16] == LE(s.nsec, 8);
    assert data[16..20] == LE(s.msgType, 4);
    assert data[24..] == s.key + [NUL];
    CStringThen(s.key, [NUL]);
    CStringPlain(s.key);
    assert CString([NUL]) == [] && s.key + [] == s.key;
  }

  // ----- Messages without NUL

  lemma SliceOf(m: Text, i: nat, j: nat, b: Byte)
    requires i <= j <= |m| && b !in m
    ensures b !in m[i..j]
  {
  }

  predicate Lacks(fields: seq<Field>, b: Byte) {
    forall i :: 0 <= i < |fields| ==> b !in fields[i].value
  }

  lemma LacksCons(f: Field, rest: seq<Field>, b: Byte)
    requires b !in f.value && Lacks(rest, b)
    ensures Lacks([f] + rest, b)
  {
  }

  /** The values that a parse reports are stretches of the message. */
  lemma {:induction false} ValuesFrom(m: Text, pos: nat, b: Byte)
    requires pos <= |m| && b !in m
    ensures Lacks(ParseFields(m, pos).1, b)
    decreases |m| - pos
  {
    hide Lacks;
    assert Lacks([], b) by { NoFields(b); }
    match ScanNumber(m, pos, EQUALS, 0)
    case Stopped(tag, start) =>
      var end := FindSoh(m, start);
      var f := Field(tag, m[start..end]);
      SliceOf(m, start, end, b);
      LacksCons(f, [], b);
      assert [f] + [] == [f];
      if end + 1 < |m| {
        ValuesFrom(m, end + 1, b);
        LacksCons(f, ParseFields(m, end + 1).1, b);
      }
    case _ =>
  }

  lemma NoFields(b: Byte)
    ensures Lacks([], b)
  {
  }

  lemma ParsedValues(m: Text, b: Byte)
    requires b !in m
    ensures Lacks(Parse(m, DEFAULT).fields, b)
  {
    hide ParseFields, Lacks, Report;
    NoFields(b);
    match Frame(m)
    case Framed(_, bodyStart, msgLen) =>
      var len := bodyStart + msgLen + CHECK_SUM_LEN;
      SliceOf(m, 0, len, b);
      assert m[0..len] == m[..len];
      ValuesFrom(m[..len], bodyStart, b);
      var fields := ParseFields(m[..len], bodyStart).1;
      ReportDefault(fields, Sum(m[..len][..bodyStart + msgLen]) % 256);
    case _ =>
  }

  /** A message without NUL leads to a key without NUL. */
  lemma PlainKey(m: Text)
    requires NUL !in m
    ensures NUL !in KeyOf(DetailsOf(Parse(m, DEFAULT).fields))
  {
    hide Parse, DetailsOf, StrNCpy;
    var fields := Parse(m, DEFAULT).fields;
    ParsedValues(m, NUL);
    SlotsFromFields(fields, NUL);
    var d := DetailsOf(fields);
    StrNCpyHas(d.senderCompId, BAR);
    StrNCpyHas(d.targetCompId, BAR);
    StrNCpyHas(d.clOrdId, BAR);
    StrNCpyHas(Instrument(d), BAR);
  }
}
