/** Which messages take part in latency measurement, and with what summary, in terms of their fields on the wire. */
module Selection {
  import opened Bytes
  import opened Options
  import opened FixParser
  import opened FixCodec
  import opened FixVerdicts
  import opened FixDetails

  // ----- Numbers in values

  predicate Blank(b: Byte) {
    b == ' ' as int || 9 <= b <= 13
  }

  predicate IsSign(b: Byte) {
    b == '+' as int || b == '-' as int
  }

  /** White space up to a, then perhaps a sign, then from b on digits up to c. */
  ghost predicate IntShape(v: Text, a: nat, b: nat, c: nat) {
    && a <= b && DigitsTo(v, b, c)
    && (forall i :: 0 <= i < a ==> Blank(v[i])) && (a < |v| ==> !Blank(v[a]))
    && b == if a < |v| && IsSign(v[a]) then a + 1 else a
  }

  function IntAt(v: Text, a: nat, b: nat, c: nat): int
    requires a <= b <= c <= |v| && Digits(v[b..c])
  {
    if a < b && v[a] == '-' as int then 0 - Number(v[b..c]) else Number(v[b..c])
  }

  /** The value begins with this number, behind white space and with or without a sign; zero when there is none. */
  ghost predicate ReadsInt(v: Text, n: int) {
    exists a: nat, b: nat, c: nat :: IntShape(v, a, b, c) && n == IntAt(v, a, b, c)
  }

  lemma {:induction false} DigitRunTo(s: Text, c: nat, acc: nat)
    requires DigitsTo(s, 0, c)
    ensures DigitRun(s, acc) == DigitsValue(s[..c], acc)
    decreases c
  {
    assert s[0..c] == s[..c];
    if c > 0 {
      assert s[..c][0] == s[0] && s[..c][1..] == s[1..][..c - 1] == s[1..][0..c - 1];
      DigitRunTo(s[1..], c - 1, acc * 10 + (s[0] - ZERO));
    } else if s != [] {
      OneDigit(s[0]);
    }
  }

  lemma DigitRunIs(v: Text, b: nat, c: nat)
    requires DigitsTo(v, b, c)
    ensures DigitRun(v[b..], 0) == Number(v[b..c])
  {
    hide DigitRun, Number;
    var s := v[b..];
    assert s[0..c - b] == v[b..c] == s[..c - b];
    DigitRunTo(s, c - b, 0);
    NumberIs(v[b..c]);
  }

  lemma {:induction false} AtoiAt(v: Text, a: nat, b: nat, c: nat)
    requires IntShape(v, a, b, c)
    ensures Atoi(v) == IntAt(v, a, b, c)
    decreases a
  {
    hide DigitRun, Number;
    if a > 0 {
      assert v[1..][b - 1..c - 1] == v[b..c];
      AtoiAt(v[1..], a - 1, b - 1, c - 1);
    } else {
      assert v[0..] == v;
      DigitRunIs(v, b, c);
    }
  }

  lemma {:induction false} Blanks(v: Text) returns (a: nat)
    ensures a <= |v| && (forall i :: 0 <= i < a ==> Blank(v[i])) && (a < |v| ==> !Blank(v[a]))
  {
    if v != [] && Blank(v[0]) {
      var n := Blanks(v[1..]);
      a := n + 1;
    } else {
      a := 0;
    }
  }

  /** atoi of a value is the number that it begins with. */
  lemma AtoiReads(v: Text, n: int)
    ensures Atoi(v) == n <==> ReadsInt(v, n)
  {
    hide Atoi, Number;
    if Atoi(v) == n {
      var a := Blanks(v);
      var b := if a < |v| && IsSign(v[a]) then a + 1 else a;
      var c := DigitsEnd(v, b);
      assert IntShape(v, a, b, c);
      AtoiAt(v, a, b, c);
    }
    if ReadsInt(v, n) {
      var a: nat, b: nat, c: nat :| IntShape(v, a, b, c) && n == IntAt(v, a, b, c);
      AtoiAt(v, a, b, c);
    }
  }

  // ----- The last field of a tag

  /** Field i is the last with this tag. */
  predicate IsLast(fields: seq<Field>, i: int, tag: nat) {
    0 <= i < |fields| && fields[i].tag == tag && forall j :: i < j < |fields| ==> fields[j].tag != tag
  }

  predicate IsType(f: Field) {
    f.tag == 35 && 1 <= |f.value| <= 2
  }

  /** Field i is the last field 35 of one or two characters. */
  predicate IsLastType(fields: seq<Field>, i: int) {
    0 <= i < |fields| && IsType(fields[i]) && forall j :: i < j < |fields| ==> !IsType(fields[j])
  }

  /** The message type has this name; a NUL in front of a single character makes no difference. */
  ghost predicate TypeIs(fields: seq<Field>, name: string)
    requires forall i :: 0 <= i < |name| ==> name[i] as int < 256
  {
    exists i :: IsLastType(fields, i) &&
      (fields[i].value == Ascii(name) || (|name| == 1 && fields[i].value == [NUL] + Ascii(name)))
  }

  /** ExecType is that of a new order. */
  ghost predicate SaysNew(fields: seq<Field>) {
    exists i :: IsLast(fields, i, 150) && fields[i].value != [] && fields[i].value[0] == '0' as int
  }

  /** QuoteStatus is 0 or absent. */
  ghost predicate Accepted(fields: seq<Field>) {
    || (forall i :: 0 <= i < |fields| ==> fields[i].tag != 297)
    || exists i :: IsLast(fields, i, 297) && |fields[i].value| <= 31 && ReadsInt(fields[i].value, 0)
  }

  /** Requests: new orders, mass quotes and trace requests. */
  ghost predicate Asks(fields: seq<Field>) {
    TypeIs(fields, "D") || TypeIs(fields, "i") || TypeIs(fields, "xr")
  }

  /** Requests, and the responses to them that report success. */
  ghost predicate TakesPart(fields: seq<Field>) {
    || Asks(fields)
    || (TypeIs(fields, "8") && SaysNew(fields))
    || (TypeIs(fields, "b") && Accepted(fields))
    || TypeIs(fields, "xs")
  }

  lemma {:induction false} LastNumericIs(fields: seq<Field>, tag: nat, i: int)
    requires if tag == 35 then IsLastType(fields, i) else IsLast(fields, i, tag)
    ensures LastNumeric(fields, tag) == Some(fields[i].value)
  {
    var n := |fields| - 1;
    if i < n {
      assert fields[..n][i] == fields[i];
      LastNumericIs(fields[..n], tag, i);
    }
  }

  lemma {:induction false} LastNumericFinds(fields: seq<Field>, tag: nat) returns (i: int)
    ensures match LastNumeric(fields, tag)
      case None => forall j :: 0 <= j < |fields| ==> if tag == 35 then !IsType(fields[j]) else fields[j].tag != tag
      case Some(v) => (if tag == 35 then IsLastType(fields, i) else IsLast(fields, i, tag)) && v == fields[i].value
  {
    i := -1;
    if fields != [] {
      var n := |fields| - 1;
      var last := fields[n];
      if last.tag == tag && (tag == MSG_TYPE ==> 1 <= |last.value| <= 2) {
        i := n;
      } else {
        i := LastNumericFinds(fields[..n], tag);
        assert forall j :: 0 <= j < n ==> fields[..n][j] == fields[j];
      }
    }
  }

  /** The number that the code keeps for a message type. */
  function Code(name: string): int
    requires |name| in {1, 2}
  {
    if |name| == 1 then name[0] as int else name[0] as int * 256 + name[1] as int
  }

  /** The number kept is that of a type exactly when the field names it. */
  lemma CodeIsName(v: Text, name: string)
    requires name in ["D", "8", "i", "b", "xr", "xs"] && 1 <= |v| <= 2
    ensures MessageType(v, 0) == Code(name) <==> v == Ascii(name) || (|name| == 1 && v == [NUL] + Ascii(name))
  {
    assert |v| == 1 ==> v == [v[0]];
    assert |v| == 2 ==> v == [v[0], v[1]];
    assert |name| == 1 ==> Ascii(name) == [name[0] as int];
    assert |name| == 2 ==> Ascii(name) == [name[0] as int, name[1] as int];
  }

  lemma TypeIsCode(fields: seq<Field>, name: string)
    requires name in ["D", "8", "i", "b", "xr", "xs"]
    ensures DetailsOf(fields).messageType == Code(name) <==> TypeIs(fields, name)
  {
    hide DetailsOf, LastNumeric, MessageType, IsLastType, Ascii;
    LastNumberWins(fields);
    var i := LastNumericFinds(fields, 35);
    if LastNumeric(fields, 35).Some? {
      LastTypeFacts(fields, i);
      CodeIsName(fields[i].value, name);
    }
    forall j | IsLastType(fields, j)
      ensures 0 <= j < |fields| && LastNumeric(fields, 35) == Some(fields[j].value)
    {
      LastTypeFacts(fields, j);
      LastNumericIs(fields, 35, j);
    }
  }

  lemma LastTypeFacts(fields: seq<Field>, i: int)
    requires IsLastType(fields, i)
    ensures 0 <= i < |fields| && 1 <= |fields[i].value| <= 2
  {
  }

  lemma SaysNewIs(fields: seq<Field>)
    ensures DetailsOf(fields).execType == '0' as int <==> SaysNew(fields)
  {
    hide DetailsOf, LastNumeric;
    LastNumberWins(fields);
    var i := LastNumericFinds(fields, 150);
    forall j | IsLast(fields, j, 150) ensures LastNumeric(fields, 150) == Some(fields[j].value) {
      LastNumericIs(fields, 150, j);
    }
  }

  lemma AcceptedIs(fields: seq<Field>)
    ensures DetailsOf(fields).quoteStatus == 0 <==> Accepted(fields)
  {
    hide DetailsOf, LastNumeric, Atoi, ReadsInt;
    LastNumberWins(fields);
    var i := LastNumericFinds(fields, 297);
    if LastNumeric(fields, 297).Some? { AtoiReads(fields[i].value, 0); }
    forall j | IsLast(fields, j, 297) ensures LastNumeric(fields, 297) == Some(fields[j].value) {
      LastNumericIs(fields, 297, j);
    }
  }

  /** The choice of the code is that of the fields. */
  lemma Selected(fields: seq<Field>)
    ensures ShouldProcess(DetailsOf(fields)) <==> TakesPart(fields)
    ensures IsRequest(DetailsOf(fields).messageType) <==> Asks(fields)
  {
    hide DetailsOf, TypeIs, SaysNew, Accepted;
    TypeIsCode(fields, "D");
    TypeIsCode(fields, "8");
    TypeIsCode(fields, "i");
    TypeIsCode(fields, "b");
    TypeIsCode(fields, "xr");
    TypeIsCode(fields, "xs");
    SaysNewIs(fields);
    AcceptedIs(fields);
  }

  // ----- The summary

  /** Sender, target, instruction and instrument as the last fields give them. */
  function Sender(fields: seq<Field>): Text {
    LastOf(fields, 49, 49)
  }

  function Target(fields: seq<Field>): Text {
    LastOf(fields, 56, 56)
  }

  function Order(fields: seq<Field>): Text {
    LastOf(fields, 11, 117)
  }

  function Traded(fields: seq<Field>): Text {
    var symbol := LastOf(fields, 55, 311);
    if symbol != [] then symbol else LastOf(fields, 48, 309)
  }

  /** The key: who asked, who was asked, the order and what is traded, with bars between them. */
  ghost function KeyOnWire(fields: seq<Field>): Text {
    var asking, asked := if Asks(fields) then Sender(fields) else Target(fields),
      if Asks(fields) then Target(fields) else Sender(fields);
    StrNCpy(asking) + Ascii("|") + StrNCpy(asked) + Ascii("|") + StrNCpy(Order(fields)) + Ascii("|")
      + StrNCpy(Traded(fields))
  }

  lemma KeyIsOnWire(fields: seq<Field>)
    ensures KeyOf(DetailsOf(fields)) == KeyOnWire(fields)
  {
    hide DetailsOf, LastOf, StrNCpy, Asks;
    LastTagWins(fields);
    Selected(fields);
    assert Ascii("|") == [BAR];
  }

  /**
   A parse leads to a summary exactly when it succeeds and its fields take part; the summary carries the time
   stamp, the message type that the fields name, and their key.
   */
  lemma SummaryOnWire(o: Outcome, sec: nat, nsec: nat)
    ensures var ss := Summaries(o, sec, nsec);
      && |ss| == (if o.result == OK && TakesPart(o.fields) then 1 else 0)
      && (ss != [] ==>
            && ss[0].sec == sec && ss[0].nsec == nsec && ss[0].key == KeyOnWire(o.fields)
            && forall name :: name in ["D", "8", "i", "b", "xr", "xs"] ==>
                 (ss[0].msgType == Code(name) <==> TypeIs(o.fields, name)))
  {
    hide DetailsOf, TakesPart, TypeIs, KeyOf, KeyOnWire, Code;
    Selected(o.fields);
    KeyIsOnWire(o.fields);
    forall name | name in ["D", "8", "i", "b", "xr", "xs"]
      ensures DetailsOf(o.fields).messageType == Code(name) <==> TypeIs(o.fields, name)
    {
      TypeIsCode(o.fields, name);
    }
  }

  /** The buffer begins with a message of n body bytes whose sum is right and whose bytes read as these fields. */
  ghost predicate Carries(buf: Text, t: nat, n: nat, tags: seq<Text>, fields: seq<Field>) {
    && Whole(buf, t, n) && SumMatches(buf, t, n)
    && ReadsAs(buf[..t + 1 + n + 7], t + 1, t + 1 + n + 7, tags, fields)
  }

  lemma CarriedParse(buf: Text, t: nat, n: nat, tags: seq<Text>, fields: seq<Field>)
    requires Carries(buf, t, n, tags, fields)
    ensures Parse(buf, DEFAULT).result == OK && Parse(buf, DEFAULT).fields == fields
  {
    hide Number, SumMatches, ReadsAs, Parse, Says, Sum;
    var m := buf[..t + 1 + n + 7];
    var o := Outcome(OK, |m|, Started(n, if buf[8] == '2' as int then 42 else 44), fields, true);
    AtEnd(m);
    assert Told(fields, fields, Sum(buf[..t + 1 + n]) % 256, DEFAULT) by { Untouched(fields, buf[..t + 1 + n]); }
    assert Reading(buf, DEFAULT, o, t, n, |m|, tags, fields) by { WholeLong(buf, t, n); }
    ReadIsParse(buf, DEFAULT, o);
  }

  lemma WholeLong(buf: Text, t: nat, n: nat)
    requires Whole(buf, t, n)
    ensures |buf| > 8
  {
    hide Number;
  }

  lemma Untouched(fields: seq<Field>, summed: Text)
    ensures Told(fields, fields, Sum(summed) % 256, DEFAULT)
  {
    hide Sum, Number;
  }

  lemma ParsedCarries(buf: Text) returns (t: nat, n: nat, tags: seq<Text>)
    requires Parse(buf, DEFAULT).result == OK
    ensures Carries(buf, t, n, tags, Parse(buf, DEFAULT).fields)
  {
    hide Number, SumMatches, ReadsAs, Parse, Says, Sum, EndsWith, Read, Told;
    Verdicts(buf, DEFAULT);
    var o := Parse(buf, DEFAULT);
    var q, fields;
    t, n, q, tags, fields := ReadAt(buf, o);
    AtEndOnly(buf[..t + 1 + n + 7], q);
    ToldDefault(fields, o.fields, Sum(buf[..t + 1 + n]) % 256);
    ReadsWithin(buf[..t + 1 + n + 7], t + 1, q, tags, fields);
  }

  lemma ReadAt(buf: Text, o: Outcome) returns (t: nat, n: nat, q: nat, tags: seq<Text>, fields: seq<Field>)
    requires o == Parse(buf, DEFAULT) && o.result == OK && ReadsTo(buf, DEFAULT, OK)
    ensures Reading(buf, DEFAULT, o, t, n, q, tags, fields)
  {
    hide Parse, Reading;
    var o': Outcome :| o'.result == OK && Read(buf, DEFAULT, o');
    ReadIsParse(buf, DEFAULT, o');
    t, n, q, tags, fields :| Reading(buf, DEFAULT, o', t, n, q, tags, fields);
  }

  lemma AtEndOnly(m: Text, q: nat)
    ensures EndsWith(m, q, OK) ==> q == |m|
  {
    hide DigitsTo;
  }

  lemma ToldDefault(read: seq<Field>, told: seq<Field>, sum: nat)
    requires Told(read, told, sum, DEFAULT)
    ensures read == told
  {
    hide Number;
  }

  /**
   On the bytes: a buffer leads to a summary exactly when it begins with a message whose sum is right, whose bytes
   read as fields to the end, and whose fields take part.
   */
  lemma OnTheWire(buf: Text, sec: nat, nsec: nat)
    ensures Summaries(Parse(buf, DEFAULT), sec, nsec) != [] <==>
      exists t: nat, n: nat, tags: seq<Text>, fields: seq<Field> ::
        Carries(buf, t, n, tags, fields) && TakesPart(fields)
  {
    hide Parse, Carries, TakesPart, Summaries;
    var o := Parse(buf, DEFAULT);
    SummaryOnWire(o, sec, nsec);
    if o.result == OK { var t, n, tags := ParsedCarries(buf); }
    forall t: nat, n: nat, tags: seq<Text>, fields: seq<Field> | Carries(buf, t, n, tags, fields)
      ensures o.result == OK && o.fields == fields
    {
      CarriedParse(buf, t, n, tags, fields);
    }
  }
}
