/** Which buffers the parser takes and which it refuses, with what result, in terms of their bytes. */
module FixVerdicts {
  import opened Bytes
  import opened FixParser
  import opened FixCodec

  // ----- Runs of digits

  /** The digits from pos on end at t. */
  ghost predicate DigitsTo(buf: Text, pos: nat, t: nat) {
    pos <= t <= |buf| && Digits(buf[pos..t]) && (t < |buf| ==> !Digits([buf[t]]))
  }

  lemma OneDigit(b: Byte)
    ensures Digits([b]) <==> IsDigit(b)
  {
    assert [b][0] == b;
  }

  lemma {:induction false} DigitsEnd(buf: Text, pos: nat) returns (t: nat)
    requires pos <= |buf|
    ensures DigitsTo(buf, pos, t)
    decreases |buf| - pos
  {
    if pos == |buf| {
      t := pos;
    } else {
      OneDigit(buf[pos]);
      if IsDigit(buf[pos]) {
        t := DigitsEnd(buf, pos + 1);
        assert buf[pos..t] == [buf[pos]] + buf[pos + 1..t];
      } else {
        t := pos;
      }
    }
  }

  lemma {:induction false} NumberIs(d: Text)
    requires Digits(d)
    ensures Number(d) == DigitsValue(d, 0)
  {
    if d != [] {
      var n := |d| - 1;
      NumberIs(d[..n]);
      DigitsValueSnoc(d[..n], d[n], 0);
      assert d[..n] + [d[n]] == d;
    }
  }

  lemma {:induction false} ScanTo(buf: Text, pos: nat, stop: Byte, acc: nat, t: nat)
    requires DigitsTo(buf, pos, t) && !IsDigit(stop)
    ensures ScanNumber(buf, pos, stop, acc) ==
      if t == |buf| then RanOut(DigitsValue(buf[pos..t], acc))
      else if buf[t] == stop then Stopped(DigitsValue(buf[pos..t], acc), t + 1)
      else Bad
    decreases t - pos
  {
    if pos < t {
      assert buf[pos..t][0] == buf[pos] && buf[pos..t][1..] == buf[pos + 1..t];
      ScanTo(buf, pos + 1, stop, acc * 10 + (buf[pos] - ZERO), t);
    } else if t < |buf| {
      OneDigit(buf[t]);
    }
  }

  /** What a scan for a number comes to, by where its digits end. */
  lemma ScanIs(buf: Text, pos: nat, stop: Byte, t: nat)
    requires DigitsTo(buf, pos, t) && !IsDigit(stop)
    ensures ScanNumber(buf, pos, stop, 0) ==
      if t == |buf| then RanOut(Number(buf[pos..t]))
      else if buf[t] == stop then Stopped(Number(buf[pos..t]), t + 1)
      else Bad
  {
    hide ScanNumber, Number, DigitsValue;
    ScanTo(buf, pos, stop, 0, t);
    NumberIs(buf[pos..t]);
  }

  // ----- The frame

  /** The buffer begins with one of the two headers. */
  predicate Supported(buf: Text) {
    || Ascii("8=FIX.4.2") + [SOH] + Ascii("9=") <= buf
    || Ascii("8=FIX.4.4") + [SOH] + Ascii("9=") <= buf
  }

  lemma HeaderBytes()
    ensures Ascii("8=FIX.4.2") + [SOH] + Ascii("9=") == HEADER_42
    ensures Ascii("8=FIX.4.4") + [SOH] + Ascii("9=") == HEADER_44
  {
  }

  lemma HeaderPrefix(h: Text, buf: Text)
    requires |h| <= |buf|
    ensures h <= buf <==> buf[..|h|] == h
  {
  }

  lemma SupportedIsType(buf: Text)
    ensures Supported(buf) ==> |buf| >= 12
    ensures |buf| >= 12 ==> (Supported(buf) <==> FixType(buf) != -1)
    ensures Supported(buf) ==> FixType(buf) == if buf[8] == '2' as int then 42 else 44
  {
    HeaderBytes();
    if |buf| >= 12 {
      HeaderPrefix(HEADER_42, buf);
      HeaderPrefix(HEADER_44, buf);
    }
  }

  /** The digits of BodyLength end at t. */
  ghost predicate LengthEnds(buf: Text, t: nat) {
    Supported(buf) && DigitsTo(buf, 12, t)
  }

  /** BodyLength ends in SOH at t and says n. */
  ghost predicate Says(buf: Text, t: nat, n: nat) {
    LengthEnds(buf, t) && t < |buf| && buf[t] == SOH && n == Number(buf[12..t])
  }

  /** The buffer holds the whole message that its BodyLength calls for: n bytes of body and seven of trailer. */
  ghost predicate Whole(buf: Text, t: nat, n: nat) {
    Says(buf, t, n) && 0 < n && t + 1 + n + 7 <= |buf|
  }

  lemma FrameIs(buf: Text, t: nat)
    requires LengthEnds(buf, t)
    ensures Frame(buf) ==
      if t == |buf| then Short
      else if buf[t] != SOH then BadLength
      else
        var n := Number(buf[12..t]);
        if n == 0 || t + 1 + n + 7 > |buf| then Short else Framed(FixType(buf), t + 1, n)
  {
    hide ScanNumber, Number;
    SupportedIsType(buf);
    ScanIs(buf, 12, SOH, t);
  }

  lemma FrameUnsupported(buf: Text)
    requires !Supported(buf)
    ensures Frame(buf) == if |buf| < 12 then Short else BadType
  {
    hide ScanNumber;
    SupportedIsType(buf);
  }

  // ----- The tags

  /** From start to q the message reads as these fields, with these digits for tags. */
  predicate ReadsAs(m: Text, start: nat, q: nat, tags: seq<Text>, fields: seq<Field>) {
    && start <= q <= |m| && |tags| == |fields| && m[start..q] == Render(tags, fields)
    && forall i :: 0 <= i < |fields| ==>
         Digits(tags[i]) && Number(tags[i]) == fields[i].tag && SOH !in fields[i].value
  }

  /** How the reading ends at q: at the end of the message, at a tag that is none, or without the end of a value. */
  ghost predicate EndsWith(m: Text, q: nat, result: int) {
    if q == |m| then result == OK
    else if q > |m| then false
    else
      exists t: nat :: DigitsTo(m, q, t) &&
        (if t == |m| then result == EEMPTYVALUE
         else if m[t] != EQUALS then result == ETAGINVALID
         else result == EEMPTYVALUE && SOH !in m[t + 1..])
  }

  /** One field at pos: its value ends in SOH at e. */
  lemma FieldAt(m: Text, pos: nat, t: nat, e: nat)
    requires DigitsTo(m, pos, t) && t < e < |m| && m[t] == EQUALS && m[e] == SOH && SOH !in m[t + 1..e]
    ensures var field := Field(Number(m[pos..t]), m[t + 1..e]);
      ParseFields(m, pos) ==
        if e + 1 == |m| then (OK, [field]) else (ParseFields(m, e + 1).0, [field] + ParseFields(m, e + 1).1)
  {
    hide ScanNumber, Number, FindSoh;
    ScanIs(m, pos, EQUALS, t);
    FindSohAt(m, t + 1, e);
  }

  /** No field at pos. */
  lemma NoFieldAt(m: Text, pos: nat, result: int)
    requires pos < |m| && EndsWith(m, pos, result)
    ensures ParseFields(m, pos) == (result, [])
  {
    hide ScanNumber, Number, FindSoh;
    var t: nat :| DigitsTo(m, pos, t) &&
        (if t == |m| then result == EEMPTYVALUE
         else if m[t] != EQUALS then result == ETAGINVALID
         else result == EEMPTYVALUE && SOH !in m[t + 1..]);
    ScanIs(m, pos, EQUALS, t);
    if t < |m| && m[t] == EQUALS { NoSoh(m, t + 1); }
  }

  lemma NoSoh(m: Text, pos: nat)
    requires pos <= |m| && SOH !in m[pos..]
    ensures FindSoh(m, pos) == |m|
  {
    assert forall i :: pos <= i < |m| ==> m[i] == m[pos..][i - pos];
  }

  /** One field at pos, as the loop reads it. */
  lemma NextField(m: Text, pos: nat) returns (t: nat, e: nat)
    requires pos < |m| && !EndsWith(m, pos, ParseFields(m, pos).0)
    ensures DigitsTo(m, pos, t) && t < e < |m| && m[t] == EQUALS && m[e] == SOH && SOH !in m[t + 1..e]
  {
    hide ScanNumber, Number, FindSoh;
    t := DigitsEnd(m, pos);
    ScanIs(m, pos, EQUALS, t);
    if t < |m| && m[t] == EQUALS {
      e := FindSoh(m, t + 1);
      assert m[t + 1..|m|] == m[t + 1..];
    }
  }

  lemma RenderedField(m: Text, pos: nat, t: nat, e: nat, q: nat, tags: seq<Text>, fields: seq<Field>)
    requires DigitsTo(m, pos, t) && t < e < |m| && m[t] == EQUALS && m[e] == SOH && SOH !in m[t + 1..e]
    requires ReadsAs(m, e + 1, q, tags, fields)
    ensures ReadsAs(m, pos, q, [m[pos..t]] + tags, [Field(Number(m[pos..t]), m[t + 1..e])] + fields)
  {
    hide Number, Render;
    var tag, field := m[pos..t], Field(Number(m[pos..t]), m[t + 1..e]);
    RenderCons(tag, field, tags, fields);
    assert m[pos..q] == tag + [EQUALS] + field.value + [SOH] + m[e + 1..q];
  }

  lemma ReadsNothing(m: Text, pos: nat)
    requires pos <= |m|
    ensures ReadsAs(m, pos, pos, [], [])
  {
    RenderNil();
  }

  /** The tag loop reads fields up to where it ends. */
  lemma {:induction false} TagsRead(m: Text, pos: nat) returns (q: nat, tags: seq<Text>)
    requires pos < |m|
    ensures ReadsAs(m, pos, q, tags, ParseFields(m, pos).1) && EndsWith(m, q, ParseFields(m, pos).0)
    decreases |m| - pos
  {
    hide ParseFields, ReadsAs, EndsWith, Number;
    var r := ParseFields(m, pos);
    if EndsWith(m, pos, r.0) {
      q, tags := pos, [];
      NoFieldAt(m, pos, r.0);
      ReadsNothing(m, pos);
    } else {
      var t, e := NextField(m, pos);
      FieldAt(m, pos, t, e);
      var field, next := Field(Number(m[pos..t]), m[t + 1..e]), e + 1;
      if next == |m| {
        q, tags := next, [m[pos..t]] + [];
        ReadsNothing(m, next);
        RenderedField(m, pos, t, e, next, [], []);
        AtEnd(m);
        assert [field] + [] == [field];
      } else {
        var rest;
        q, rest := TagsRead(m, next);
        tags := [m[pos..t]] + rest;
        RenderedField(m, pos, t, e, q, rest, ParseFields(m, next).1);
      }
    }
  }

  lemma AtEnd(m: Text)
    ensures EndsWith(m, |m|, OK)
  {
  }

  lemma FieldBytes(tag: Text, value: Text, rest: Text)
    ensures var s, a := tag + [EQUALS] + value + [SOH] + rest, |tag|;
      var b := a + 1 + |value|;
      && s[0..a] == tag && s[a] == EQUALS && s[a + 1..b] == value && s[b] == SOH && s[b + 1..|s|] == rest
  {
  }

  lemma FirstRendered(m: Text, pos: nat, q: nat, tags: seq<Text>, fields: seq<Field>)
    requires ReadsAs(m, pos, q, tags, fields) && fields != []
    ensures pos <= q <= |m| && |tags| == |fields|
    ensures Digits(tags[0]) && Number(tags[0]) == fields[0].tag && SOH !in fields[0].value
    ensures m[pos..q]
      == tags[0] + [EQUALS] + fields[0].value + [SOH] + Render(tags[1..], fields[1..])
  {
    hide Number;
  }

  lemma ReadsRest(m: Text, pos: nat, p: nat, q: nat, tags: seq<Text>, fields: seq<Field>)
    requires ReadsAs(m, pos, q, tags, fields) && fields != [] && p <= q
    requires m[p..q] == Render(tags[1..], fields[1..])
    ensures ReadsAs(m, p, q, tags[1..], fields[1..])
  {
    hide Number, Render;
  }

  /** The first of the fields a message reads as stands at pos. */
  lemma FirstField(m: Text, pos: nat, q: nat, tags: seq<Text>, fields: seq<Field>) returns (t: nat, e: nat)
    requires ReadsAs(m, pos, q, tags, fields) && fields != []
    ensures DigitsTo(m, pos, t) && t < e < q <= |m| && m[t] == EQUALS && m[e] == SOH && SOH !in m[t + 1..e]
    ensures fields[0] == Field(Number(m[pos..t]), m[t + 1..e]) && ReadsAs(m, e + 1, q, tags[1..], fields[1..])
  {
    hide Number, Render, ReadsAs, Digits;
    FirstRendered(m, pos, q, tags, fields);
    var tag, value, rest := tags[0], fields[0].value, Render(tags[1..], fields[1..]);
    var s := tag + [EQUALS] + value + [SOH] + rest;
    FieldBytes(tag, value, rest);
    t, e := pos + |tag|, pos + |tag| + 1 + |value|;
    SubSlice(m, pos, s, 0, |tag|);
    SubSlice(m, pos, s, |tag| + 1, |tag| + 1 + |value|);
    SubSlice(m, pos, s, |tag| + 1 + |value| + 1, |s|);
    ReadsRest(m, pos, e + 1, q, tags, fields);
    OneDigit(m[t]);
  }

  /** Only one reading ends in a way: it is the one the tag loop finds. */
  lemma {:induction false} TagsSay(m: Text, pos: nat, q: nat, tags: seq<Text>, fields: seq<Field>, result: int)
    requires pos < |m| && ReadsAs(m, pos, q, tags, fields) && EndsWith(m, q, result)
    ensures ParseFields(m, pos) == (result, fields)
    decreases |fields|
  {
    hide ParseFields, ReadsAs, EndsWith, Number;
    if fields == [] {
      EmptyReading(m, pos, q, tags);
      NoFieldAt(m, pos, result);
    } else {
      ReadsWithin(m, pos, q, tags, fields);
      var t, e := FirstField(m, pos, q, tags, fields);
      FieldAt(m, pos, t, e);
      assert fields == [fields[0]] + fields[1..];
      if e + 1 == |m| {
        NothingLeft(m, q, tags[1..], fields[1..], result);
        assert fields == [fields[0]];
      } else {
        TagsSay(m, e + 1, q, tags[1..], fields[1..], result);
      }
    }
  }

  lemma ReadsWithin(m: Text, pos: nat, q: nat, tags: seq<Text>, fields: seq<Field>)
    requires ReadsAs(m, pos, q, tags, fields)
    ensures pos <= q <= |m| && |tags| == |fields|
  {
  }

  lemma EmptyReading(m: Text, pos: nat, q: nat, tags: seq<Text>)
    requires ReadsAs(m, pos, q, tags, [])
    ensures q == pos
  {
  }

  lemma NothingLeft(m: Text, q: nat, tags: seq<Text>, fields: seq<Field>, result: int)
    requires ReadsAs(m, |m|, q, tags, fields) && EndsWith(m, q, result)
    ensures fields == [] && result == OK
  {
    hide Number;
    assert m[|m|..q] == [];
  }

  // ----- The verdicts

  predicate Refuses(o: Outcome, result: int, consumed: nat) {
    o == Outcome(result, consumed, NotStarted, [], false)
  }

  /** Another message type: twelve bytes or more that are neither header. */
  predicate Foreign(buf: Text) {
    |buf| >= 12 && !Supported(buf)
  }

  /** Not enough bytes for the header, for BodyLength, or for what BodyLength says; or it says zero. */
  ghost predicate TooShort(buf: Text) {
    || |buf| < 12
    || exists t: nat :: LengthEnds(buf, t) &&
         (t == |buf| || (buf[t] == SOH && (Number(buf[12..t]) == 0 || t + 1 + Number(buf[12..t]) + 7 > |buf|)))
  }

  /** BodyLength holds a byte that is neither a digit nor SOH. */
  ghost predicate NoLength(buf: Text) {
    exists t: nat :: LengthEnds(buf, t) && t < |buf| && buf[t] != SOH
  }

  /** The three characters before the last are the sum of all bytes before the trailer, modulo 256, in decimal. */
  predicate SumMatches(buf: Text, t: nat, n: nat)
    requires t + 1 + n + 7 <= |buf|
  {
    var p, zero := t + 1 + n + 3, '0' as int;
    Sum(buf[..t + 1 + n]) % 256
      == 100 * (Signed(buf[p]) - zero) + 10 * (Signed(buf[p + 1]) - zero) + (Signed(buf[p + 2]) - zero)
  }

  ghost predicate WrongSum(buf: Text, options: Options) {
    exists t: nat, n: nat :: Whole(buf, t, n) && !options.skipVerify && !SumMatches(buf, t, n)
  }

  /** What is told of the fields read: the same, but if asked for, the sum in three digits in place of the CheckSum. */
  predicate Told(read: seq<Field>, told: seq<Field>, sum: nat, options: Options) {
    && |told| == |read|
    && forall i :: 0 <= i < |read| ==>
         && told[i].tag == read[i].tag
         && if options.reportCalculated && read[i].tag == 10 then
              |told[i].value| == 3 && Digits(told[i].value) && Number(told[i].value) == sum
            else told[i].value == read[i].value
  }

  /** A message of n body bytes is there, its sum is right or not asked for, and it reads as o tells. */
  ghost predicate Reading(buf: Text, options: Options, o: Outcome, t: nat, n: nat, q: nat, tags: seq<Text>,
      fields: seq<Field>)
  {
    && Whole(buf, t, n) && (options.skipVerify || SumMatches(buf, t, n))
    && var m := buf[..t + 1 + n + 7];
       && ReadsAs(m, t + 1, q, tags, fields) && EndsWith(m, q, o.result)
       && Told(fields, o.fields, Sum(buf[..t + 1 + n]) % 256, options)
       && o.consumed == |m| && o.ended == (o.result == OK)
       && o.start == Started(n, if buf[8] == '2' as int then 42 else 44)
  }

  ghost predicate Read(buf: Text, options: Options, o: Outcome) {
    exists t: nat, n: nat, q: nat, tags: seq<Text>, fields: seq<Field> ::
      Reading(buf, options, o, t, n, q, tags, fields)
  }

  lemma WholeFrame(buf: Text, t: nat, n: nat)
    requires Whole(buf, t, n)
    ensures Frame(buf) == Framed(if buf[8] == '2' as int then 42 else 44, t + 1, n)
  {
    hide Number, Frame, FixType;
    FrameIs(buf, t);
    SupportedIsType(buf);
  }

  lemma SumIs(buf: Text, t: nat, n: nat)
    requires t + 1 + n + 7 <= |buf|
    ensures var m := buf[..t + 1 + n + 7];
      && m[..t + 1 + n] == buf[..t + 1 + n]
      && (SumMatches(buf, t, n) <==> Sum(m[..t + 1 + n]) % 256 == Supplied(m[t + 1 + n + 3..]))
  {
    hide Sum;
  }

  lemma NumberOfThree(d: Text)
    requires |d| == 3 && Digits(d)
    ensures Number(d) == 100 * (d[0] - ZERO) + 10 * (d[1] - ZERO) + (d[2] - ZERO)
  {
    hide Number;
    LastDigit(d);
    LastDigit(d[..2]);
    LastDigit(d[..1]);
    assert d[..2][..1] == d[..1] && d[..1][..0] == [];
    NumberNone();
  }

  lemma NumberNone()
    ensures Number([]) == 0
  {
  }

  lemma LastDigit(d: Text)
    requires Digits(d) && d != []
    ensures Digits(d[..|d| - 1]) && Number(d) == Number(d[..|d| - 1]) * 10 + (d[|d| - 1] - ZERO)
  {
  }

  lemma SplitNumber(x: nat, y: nat, z: nat)
    requires x < 10 && y < 10 && z < 10
    ensures var c := 100 * x + 10 * y + z; c / 100 == x && c / 10 % 10 == y && c % 10 == z
  {
    assert (10 * (10 * x + y) + z) / 10 == 10 * x + y;
  }

  lemma ThreeDigits(d: Text, c: nat)
    requires c < 256
    ensures |d| == 3 && Digits(d) && Number(d) == c <==> d == CheckDigits(c)
  {
    hide Number;
    if |d| == 3 && Digits(d) && Number(d) == c {
      NumberOfThree(d);
      SplitNumber(d[0] - ZERO, d[1] - ZERO, d[2] - ZERO);
      assert d == [d[0], d[1], d[2]];
    }
    DigitsOf(c);
  }

  lemma DigitsOf(c: nat)
    requires c < 256
    ensures Digits(CheckDigits(c)) && Number(CheckDigits(c)) == c
  {
    hide Number;
    NumberOfThree(CheckDigits(c));
  }

  /** Only one way to tell the fields. */
  lemma ToldIsReport(read: seq<Field>, told: seq<Field>, c: nat, options: Options)
    requires c < 256
    ensures Told(read, told, c, options) <==> told == Report(read, c, options)
  {
    hide Number, CheckDigits;
    forall i | 0 <= i < |read| && i < |told|
      ensures told[i] == ReportField(read[i], c, options) <==>
        && told[i].tag == read[i].tag
        && if options.reportCalculated && read[i].tag == 10 then
             |told[i].value| == 3 && Digits(told[i].value) && Number(told[i].value) == c
           else told[i].value == read[i].value
    {
      ThreeDigits(told[i].value, c);
    }
  }

  lemma ReadingIsParse(buf: Text, options: Options, o: Outcome, t: nat, n: nat, q: nat, tags: seq<Text>,
      fields: seq<Field>)
    requires Reading(buf, options, o, t, n, q, tags, fields)
    ensures Parse(buf, options) == o
  {
    hide Number, Frame, Sum, Supplied, ParseFields, ReadsAs, EndsWith, Told, Report, SumMatches, LengthEnds;
    var m := buf[..t + 1 + n + 7];
    WholeFrame(buf, t, n);
    SumIs(buf, t, n);
    TagsSay(m, t + 1, q, tags, fields, o.result);
    ToldIsReport(fields, o.fields, Sum(buf[..t + 1 + n]) % 256, options);
  }

  lemma WrongSumIsParse(buf: Text, options: Options, t: nat, n: nat)
    requires Whole(buf, t, n) && !options.skipVerify && !SumMatches(buf, t, n)
    ensures Refuses(Parse(buf, options), ECHECKSUMINVALID, t + 1 + n + 7)
  {
    hide Number, Frame, Sum, Supplied, ParseFields, Report, SumMatches, LengthEnds;
    WholeFrame(buf, t, n);
    SumIs(buf, t, n);
  }

  lemma WholeReads(buf: Text, options: Options, t: nat, n: nat)
    requires Whole(buf, t, n) && (options.skipVerify || SumMatches(buf, t, n))
    ensures Read(buf, options, Parse(buf, options))
  {
    hide Number, Frame, Sum, Supplied, ParseFields, ReadsAs, EndsWith, Told, Report, SumMatches, LengthEnds;
    var m := buf[..t + 1 + n + 7];
    WholeFrame(buf, t, n);
    SumIs(buf, t, n);
    var q, tags := TagsRead(m, t + 1);
    var r, o := ParseFields(m, t + 1), Parse(buf, options);
    ToldIsReport(r.1, o.fields, Sum(buf[..t + 1 + n]) % 256, options);
    assert Reading(buf, options, o, t, n, q, tags, r.1);
  }

  lemma ForeignIsParse(buf: Text, options: Options)
    requires Foreign(buf)
    ensures Refuses(Parse(buf, options), EINVALIDTYPE, |buf|)
  {
    hide Frame, Supported;
    FrameUnsupported(buf);
  }

  lemma TooShortIsParse(buf: Text, options: Options)
    requires TooShort(buf)
    ensures Refuses(Parse(buf, options), EMESSAGETOOSHORT, |buf|)
  {
    hide Frame, Supported, Number;
    if |buf| < 12 {
      SupportedIsType(buf);
      FrameUnsupported(buf);
    } else {
      var t: nat :| LengthEnds(buf, t) &&
          (t == |buf| || (buf[t] == SOH && (Number(buf[12..t]) == 0 || t + 1 + Number(buf[12..t]) + 7 > |buf|)));
      FrameIs(buf, t);
    }
  }

  lemma NoLengthIsParse(buf: Text, options: Options)
    requires NoLength(buf)
    ensures Refuses(Parse(buf, options), ETAGINVALID, |buf|)
  {
    hide Frame, Supported, Number;
    var t: nat :| LengthEnds(buf, t) && t < |buf| && buf[t] != SOH;
    FrameIs(buf, t);
  }

  /** Every buffer is foreign, too short, without a length, with a wrong sum, or read. */
  lemma Exhaustive(buf: Text, options: Options)
    ensures Foreign(buf) || TooShort(buf) || NoLength(buf) || WrongSum(buf, options)
      || Read(buf, options, Parse(buf, options))
  {
    hide Parse, Supported, Number, SumMatches, Read;
    if Supported(buf) {
      SupportedIsType(buf);
      var t := DigitsEnd(buf, 12);
      assert LengthEnds(buf, t);
      if t < |buf| && buf[t] == SOH {
        var n := Number(buf[12..t]);
        if 0 < n && t + 1 + n + 7 <= |buf| {
          assert Whole(buf, t, n);
          if options.skipVerify || SumMatches(buf, t, n) { WholeReads(buf, options, t, n); }
        }
      }
    }
  }

  /** The message reads up to a place where the reading ends with this result. */
  ghost predicate ReadsTo(buf: Text, options: Options, result: int) {
    exists o: Outcome :: o.result == result && Read(buf, options, o)
  }

  lemma ReadIsParse(buf: Text, options: Options, o: Outcome)
    requires Read(buf, options, o)
    ensures Parse(buf, options) == o && o.result in {OK, ETAGINVALID, EEMPTYVALUE}
  {
    hide Parse, Whole, SumMatches, ReadsAs, Told;
    var t: nat, n: nat, q: nat, tags: seq<Text>, fields: seq<Field> :|
      Reading(buf, options, o, t, n, q, tags, fields);
    ReadingIsParse(buf, options, o, t, n, q, tags, fields);
  }

  lemma WrongSumParses(buf: Text, options: Options) returns (t: nat, n: nat)
    requires WrongSum(buf, options)
    ensures Whole(buf, t, n) && !SumMatches(buf, t, n)
    ensures Refuses(Parse(buf, options), ECHECKSUMINVALID, t + 1 + n + 7)
  {
    hide Parse, SumMatches, Says;
    t, n :| Whole(buf, t, n) && !options.skipVerify && !SumMatches(buf, t, n);
    WrongSumIsParse(buf, options, t, n);
  }

  /**
   For every buffer: the result of the parser is each code exactly when the bytes are so, the bytes consumed are
   all of the buffer until its message is known to be there and that message from then on, and callbacks are made
   only for a message whose sum is not refused.
   */
  lemma Verdicts(buf: Text, options: Options)
    ensures var o := Parse(buf, options);
      && (o.result == EINVALIDTYPE <==> Foreign(buf))
      && (o.result == EMESSAGETOOSHORT <==> TooShort(buf))
      && (o.result == ECHECKSUMINVALID <==> WrongSum(buf, options))
      && (o.result == ETAGINVALID <==> NoLength(buf) || ReadsTo(buf, options, ETAGINVALID))
      && (o.result == EEMPTYVALUE <==> ReadsTo(buf, options, EEMPTYVALUE))
      && (o.result == OK <==> ReadsTo(buf, options, OK))
      && (Foreign(buf) || TooShort(buf) || NoLength(buf) ==> Refuses(o, o.result, |buf|))
      && (WrongSum(buf, options) ==> exists t: nat, n: nat :: Whole(buf, t, n) && Refuses(o, o.result, t + 1 + n + 7))
      && (!Foreign(buf) && !TooShort(buf) && !NoLength(buf) && !WrongSum(buf, options) ==> Read(buf, options, o))
  {
    hide Parse, Foreign, TooShort, NoLength, WrongSum, Read, Whole;
    Exhaustive(buf, options);
    var o := Parse(buf, options);
    if Foreign(buf) { ForeignIsParse(buf, options); }
    if TooShort(buf) { TooShortIsParse(buf, options); }
    if NoLength(buf) { NoLengthIsParse(buf, options); }
    if WrongSum(buf, options) { var t, n := WrongSumParses(buf, options); }
    forall o' | Read(buf, options, o') ensures o' == o && o.result in {OK, ETAGINVALID, EEMPTYVALUE} {
      ReadIsParse(buf, options, o');
    }
  }

  // ----- Too short means that more bytes may complete it

  /** BodyLength says zero. */
  ghost predicate SaysZero(buf: Text) {
    exists t: nat :: Says(buf, t, 0)
  }

  function Filler(n: nat): (f: Text)
    ensures |f| == n
  {
    seq(n, _ => NUL)
  }

  lemma CompletedByFiller(buf: Text, t: nat, n: nat)
    requires Says(buf, t, n) && 0 < n && |buf| <= t + 1 + n + 7
    ensures IsMessage(buf + Filler(t + 1 + n + 7 - |buf|))
  {
    hide Number, Frame;
    var m := buf + Filler(t + 1 + n + 7 - |buf|);
    SupportedThen(buf, m);
    DigitsThen(buf, m, t);
    FrameIs(m, t);
    SupportedIsType(m);
  }

  lemma SupportedThen(buf: Text, m: Text)
    requires Supported(buf) && buf <= m
    ensures Supported(m)
  {
    HeaderBytes();
  }

  lemma DigitsThen(buf: Text, m: Text, t: nat)
    requires 12 <= t < |buf| && DigitsTo(buf, 12, t) && buf <= m
    ensures DigitsTo(m, 12, t) && m[12..t] == buf[12..t] && m[t] == buf[t]
  {
    assert m[12..t] == buf[12..t];
  }

  lemma DigitsSnoc(d: Text, x: Byte)
    requires IsDigit(x) && Digits(d)
    ensures Digits(d + [x])
  {
  }

  /** A header whose BodyLength has not ended: one more digit and SOH end it. */
  lemma LengthEnded(buf: Text) returns (m: Text, n: nat)
    requires LengthEnds(buf, |buf|)
    ensures |m| == |buf| + 2 && buf <= m && Says(m, |buf| + 1, n) && 0 < n
  {
    hide Number;
    m := buf + [ZERO + 1, SOH];
    var t := |buf| + 1;
    SupportedThen(buf, m);
    assert m[12..t] == buf[12..] + [ZERO + 1] && m[t] == SOH;
    DigitsSnoc(buf[12..], ZERO + 1);
    n := Number(m[12..t]);
    assert m[12..t][..t - 12 - 1] == buf[12..];
    LastDigit(m[12..t]);
    OneDigit(SOH);
  }

  /** Some bytes complete the buffer to a message. */
  ghost predicate Extends(buf: Text) {
    exists rest: Text :: rest != [] && IsMessage(buf + rest)
  }

  lemma ExtendsBy(buf: Text, m: Text, more: Text)
    requires buf <= m && |buf| < |m + more| && IsMessage(m + more)
    ensures Extends(buf)
  {
    hide IsMessage;
    var rest := (m + more)[|buf|..];
    assert buf + rest == m + more;
  }

  lemma ShortHeaderExtends(buf: Text)
    requires |buf| < 12 && (buf <= HEADER_42 || buf <= HEADER_44)
    ensures Extends(buf)
  {
    hide IsMessage;
    var h := if buf <= HEADER_42 then HEADER_42 else HEADER_44;
    HeaderBytes();
    assert h <= h;
    assert Digits(h[12..12]);
    assert LengthEnds(h, 12);
    var m, n := LengthEnded(h);
    CompletedByFiller(m, 13, n);
    assert buf <= m;
    ExtendsBy(buf, m, Filler(13 + 1 + n + 7 - |m|));
  }

  /** As far as it goes, the buffer agrees with a header. */
  predicate HeaderBegins(buf: Text) {
    |buf| < 12 ==> buf <= HEADER_42 || buf <= HEADER_44
  }

  /** Some bytes complete a buffer to a message exactly if it is too short, agrees with a header, and says no zero. */
  lemma ShortIffExtends(buf: Text)
    ensures Extends(buf) <==> TooShort(buf) && HeaderBegins(buf) && !SaysZero(buf)
  {
    hide IsMessage, Number, Extends, Filler, Supported;
    if TooShort(buf) && HeaderBegins(buf) && !SaysZero(buf) {
      if |buf| < 12 { ShortHeaderExtends(buf); } else { TooShortExtends(buf); }
    }
    if Extends(buf) {
      ExtendedIsShort(buf);
    }
  }

  lemma TooShortExtends(buf: Text)
    requires |buf| >= 12 && TooShort(buf) && !SaysZero(buf)
    ensures Extends(buf)
  {
    hide IsMessage, Number, Extends, Filler, Supported;
    var t: nat :| LengthEnds(buf, t) &&
        (t == |buf| || (buf[t] == SOH && (Number(buf[12..t]) == 0 || t + 1 + Number(buf[12..t]) + 7 > |buf|)));
    if t == |buf| {
      var m, n := LengthEnded(buf);
      CompletedByFiller(m, |buf| + 1, n);
      ExtendsBy(buf, m, Filler(|buf| + 1 + 1 + n + 7 - |m|));
    } else {
      var n := Number(buf[12..t]);
      assert Says(buf, t, n);
      CompletedByFiller(buf, t, n);
      ExtendsBy(buf, buf, Filler(t + 1 + n + 7 - |buf|));
    }
  }

  lemma ExtendedIsShort(buf: Text)
    requires Extends(buf)
    ensures TooShort(buf) && HeaderBegins(buf) && !SaysZero(buf)
  {
    hide IsMessage, Parse, TooShort, SaysZero;
    var rest :| rest != [] && IsMessage(buf + rest);
    var m := buf + rest;
    assert m[..|buf|] == buf;
    PrefixTooShort(m, |buf|, DEFAULT);
    Verdicts(buf, DEFAULT);
    MessageSays(m, buf);
    MessageBegins(m, buf);
  }

  lemma MessageBegins(m: Text, buf: Text)
    requires IsMessage(m) && buf <= m
    ensures HeaderBegins(buf)
  {
    if |buf| < 12 {
      var h := m[..HEADER_LEN];
      assert buf == m[..|buf|] == h[..|buf|];
    }
  }

  lemma MessageSays(m: Text, buf: Text)
    requires IsMessage(m) && buf <= m
    ensures !SaysZero(buf)
  {
    hide Number, Supported;
    if t: nat :| Says(buf, t, 0) {
      SupportedThen(buf, m);
      DigitsThen(buf, m, t);
      FrameIs(m, t);
      assert false;
    }
  }
}
